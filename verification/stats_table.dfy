/**
 The stat-ID table edited by the `StatsTemplateConfig` editor window: an
 ordered list of (name, id) records, the lookups over it and the choice of
 a fresh id. A null list (nothing loaded yet) is `None`.
 */
module StatsTable {
  import opened Options
  import opened Decimal

  /** C# `int.MaxValue`, the exclusive bound of the candidate loop in GetAvailableID. */
  const IntMaxValue: int := 0x7fff_ffff

  datatype StatEntry = StatEntry(name: string, id: int)

  /** Some entry of the table carries `id`. */
  predicate HasId(stats: seq<StatEntry>, id: int) {
    exists j :: 0 <= j < |stats| && stats[j].id == id
  }

  /** No two distinct positions carry the same id (the condition Save waits for). */
  predicate UniqueIds(stats: seq<StatEntry>) {
    forall i, j :: 0 <= i < |stats| && 0 <= j < |stats| && i != j ==> stats[i].id != stats[j].id
  }

  predicate IsAsciiLetter(c: char) {
    'a' <= c <= 'z' || 'A' <= c <= 'Z'
  }

  predicate IsAsciiLetterOrDigit(c: char) {
    IsAsciiLetter(c) || IsDigitChar(c)
  }

  /** Every character is one of `[a-zA-Z0-9]`. */
  predicate AllLetterOrDigit(s: string) {
    forall i :: 0 <= i < |s| ==> IsAsciiLetterOrDigit(s[i])
  }

  /** A name the editor accepts for an entry: a non-empty run of ASCII letters
      and digits that does not start with a digit, i.e. a plain C# identifier. */
  predicate IsValidStatName(name: string) {
    |name| > 0 && AllLetterOrDigit(name) && !IsDigitChar(name[0])
  }

  predicate AllNamesValid(stats: seq<StatEntry>) {
    forall i :: 0 <= i < |stats| ==> IsValidStatName(stats[i].name)
  }

  /** The forward scan from position `start` shared by GetStatsIndex and
      GetStatIndex: the first index at or after `start`, other than `exclude`,
      whose id is `id`, or -1. */
  function FirstIndexFrom(stats: seq<StatEntry>, id: int, exclude: int, start: nat): (r: int)
    requires start <= |stats|
    ensures r == -1 || (start <= r < |stats| && r != exclude && stats[r].id == id)
    ensures r == -1 <==> forall j :: start <= j < |stats| && j != exclude ==> stats[j].id != id
    ensures r != -1 ==> forall j :: start <= j < r && j != exclude ==> stats[j].id != id
    decreases |stats| - start
  {
    if start == |stats| then -1
    else if start != exclude && stats[start].id == id then start
    else FirstIndexFrom(stats, id, exclude, start + 1)
  }

  /** GetStatsIndex: the index of the first entry with this id, or -1. */
  function GetStatsIndex(stats: seq<StatEntry>, id: int): (r: int)
    ensures -1 <= r < |stats|
    ensures r == -1 <==> !HasId(stats, id)
    ensures r != -1 ==> stats[r].id == id && forall j :: 0 <= j < r ==> stats[j].id != id
  {
    FirstIndexFrom(stats, id, -1, 0)
  }

  /** GetStatIndex: like GetStatsIndex but never answers `excludeIndex`; -1
      exactly when no other position carries the id. */
  function GetStatIndex(stats: seq<StatEntry>, id: int, excludeIndex: int): (r: int)
    ensures -1 <= r < |stats|
    ensures r == -1 <==> forall j :: 0 <= j < |stats| && j != excludeIndex ==> stats[j].id != id
    ensures r != -1 ==> r != excludeIndex && stats[r].id == id
    ensures r != -1 ==> forall j :: 0 <= j < r && j != excludeIndex ==> stats[j].id != id
  {
    FirstIndexFrom(stats, id, excludeIndex, 0)
  }

  /** Duplicate detection as the editor performs it, one row against the rest,
      agrees with the table-wide uniqueness condition. */
  lemma DuplicateScanDecidesUniqueness(stats: seq<StatEntry>)
    ensures UniqueIds(stats) <==>
            forall i :: 0 <= i < |stats| ==> GetStatIndex(stats, stats[i].id, i) == -1
  {
    if !UniqueIds(stats) {
      var i, j :| 0 <= i < |stats| && 0 <= j < |stats| && i != j && stats[i].id == stats[j].id;
      assert GetStatIndex(stats, stats[i].id, i) != -1;
    }
  }

  /** `id` is the least positive id that no entry uses. */
  predicate IsLeastFreeId(stats: seq<StatEntry>, id: int) {
    id >= 1 && !HasId(stats, id) && forall k :: 1 <= k < id ==> HasId(stats, k)
  }

  /** The candidate loop of GetAvailableID from candidate `id` on: the first
      unused candidate below int.MaxValue, or 1 when every one is taken. */
  function FirstFreeFrom(stats: seq<StatEntry>, id: int): (r: int)
    requires id >= 1
    ensures || (id <= r < IntMaxValue && !HasId(stats, r) && forall k :: id <= k < r ==> HasId(stats, k))
            || (r == 1 && forall k :: id <= k < IntMaxValue ==> HasId(stats, k))
    decreases IntMaxValue - id
  {
    if id >= IntMaxValue then 1
    else if !HasId(stats, id) then id
    else FirstFreeFrom(stats, id + 1)
  }

  /** GetAvailableID: 1 for a null list; otherwise the least positive id in
      use by no entry, which is never more than one past the entry count. */
  function GetAvailableID(stats: Option<seq<StatEntry>>): (r: int)
    ensures r >= 1
    ensures stats.None? ==> r == 1
    ensures stats.Some? ==> r <= |stats.value| + 1
    ensures stats.Some? && |stats.value| < IntMaxValue - 1 ==> IsLeastFreeId(stats.value, r)
  {
    match stats
    case None => 1
    case Some(s) =>
      var r := FirstFreeFrom(s, 1);
      FullRangeNeedsEntries(s, r - 1);
      FullRangeNeedsEntries(s, IntMaxValue - 1);
      r
  }

  /** The set of ids in use. */
  function IdSet(stats: seq<StatEntry>): set<int> {
    set j | 0 <= j < |stats| :: stats[j].id
  }

  lemma {:induction false} IdSetSize(stats: seq<StatEntry>)
    ensures |IdSet(stats)| <= |stats|
  {
    if |stats| > 0 {
      var init := stats[..|stats| - 1];
      assert IdSet(stats) == IdSet(init) + {stats[|stats| - 1].id} by {
        forall x | x in IdSet(stats) ensures x in IdSet(init) + {stats[|stats| - 1].id} {
          var j :| 0 <= j < |stats| && stats[j].id == x;
          if j < |stats| - 1 {
            assert init[j].id == x;
          }
        }
        forall x | x in IdSet(init) ensures x in IdSet(stats) {
          var j :| 0 <= j < |init| && init[j].id == x;
          assert stats[j].id == x;
        }
      }
      IdSetSize(init);
    }
  }

  /** The ids 1 .. n. */
  function Range(n: nat): (r: set<int>)
    ensures forall k :: k in r <==> 1 <= k <= n
  {
    if n == 0 then {} else Range(n - 1) + {n}
  }

  lemma {:induction false} RangeSize(n: nat)
    ensures |Range(n)| == n
  {
    if n > 0 {
      RangeSize(n - 1);
    }
  }

  lemma SubsetSize(a: set<int>, b: set<int>)
    requires a <= b
    ensures |a| <= |b|
  {
    assert b == a + (b - a);
  }

  /** Pigeonhole: a table that uses every id 1 .. n has at least n entries. */
  lemma FullRangeNeedsEntries(stats: seq<StatEntry>, n: int)
    ensures (forall k :: 1 <= k <= n ==> HasId(stats, k)) ==> n <= |stats|
  {
    if n >= 1 && forall k :: 1 <= k <= n ==> HasId(stats, k) {
      assert Range(n) <= IdSet(stats) by {
        forall k | k in Range(n) ensures k in IdSet(stats) {
          assert HasId(stats, k);
          var j :| 0 <= j < |stats| && stats[j].id == k;
        }
      }
      SubsetSize(Range(n), IdSet(stats));
      RangeSize(n);
      IdSetSize(stats);
    }
  }

  /** List.RemoveAt: drops position `index`, keeping the others in order. */
  function RemoveAt(stats: seq<StatEntry>, index: int): (r: seq<StatEntry>)
    requires 0 <= index < |stats|
    ensures |r| == |stats| - 1
    ensures forall j :: 0 <= j < index ==> r[j] == stats[j]
    ensures forall j :: index <= j < |r| ==> r[j] == stats[j + 1]
    ensures multiset(r) + multiset{stats[index]} == multiset(stats)
  {
    assert stats == stats[..index] + [stats[index]] + stats[index + 1..];
    stats[..index] + stats[index + 1..]
  }

  lemma RemoveAtKeepsUniqueIds(stats: seq<StatEntry>, index: int)
    requires 0 <= index < |stats|
    ensures UniqueIds(stats) ==> UniqueIds(RemoveAt(stats, index))
  {
    var r := RemoveAt(stats, index);
    forall i, j | 0 <= i < |r| && 0 <= j < |r| && i != j && UniqueIds(stats) ensures r[i].id != r[j].id {
      var i' := if i < index then i else i + 1;
      var j' := if j < index then j else j + 1;
      assert r[i] == stats[i'] && r[j] == stats[j'];
      assert i' != j';
    }
  }

  lemma RemoveAtKeepsValidNames(stats: seq<StatEntry>, index: int)
    requires 0 <= index < |stats|
    ensures AllNamesValid(stats) ==> AllNamesValid(RemoveAt(stats, index))
  {
    var r := RemoveAt(stats, index);
    forall i | 0 <= i < |r| && AllNamesValid(stats) ensures IsValidStatName(r[i].name) {
      assert r[i] == stats[if i < index then i else i + 1];
    }
  }

  /** Appending an entry whose id is unused keeps the ids unique. */
  lemma AppendFreshKeepsUniqueIds(stats: seq<StatEntry>, e: StatEntry)
    requires UniqueIds(stats)
    requires !HasId(stats, e.id)
    ensures UniqueIds(stats + [e])
  {
  }
}
