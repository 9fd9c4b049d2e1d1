/**
 One run of the stat list part of `StatsTemplateConfig.OnGUI`: every row is
 checked for a duplicate id and takes the user's edits, at most one row is
 removed, an "Add" click appends a fresh entry, and the Save button is
 enabled or not. Widgets are replaced by what the user did to them in this
 pass (`RowInput`, `PassInput`); the file writes of Save are replaced by the
 generated text.
 */
module StatsEditor {
  import opened Options
  import opened Decimal
  import opened StatsTable
  import opened StatIdScript

  /** 2^32: `mUnknownCount` is a C# `uint`, so its increment wraps. */
  const UintModulus: int := 0x1_0000_0000

  /** What one row's widgets returned in this pass: the text of the name
      field, the value of the ID field, and whether DEL was clicked. */
  datatype RowInput = RowInput(text: string, id: int, delClicked: bool)

  // ---------------------------------------------------------------------
  // The name rule

  /** .NET `Regex("^[a-zA-Z0-9]*$").IsMatch`: without the Multiline option
      `$` matches at the very end and also just before a final '\n'. */
  predicate MatchesNamePatternAsWritten(text: string) {
    || AllLetterOrDigit(text)
    || (|text| >= 1 && text[|text| - 1] == '\n' && AllLetterOrDigit(text[..|text| - 1]))
  }

  /** The rule as the row loop writes it: non-empty, matches the pattern,
      first character not a digit. */
  predicate AcceptsNameAsWritten(text: string)
    ensures IsValidStatName(text) ==> AcceptsNameAsWritten(text)
  {
    |text| > 0 && MatchesNamePatternAsWritten(text) && !IsDigitChar(text[0])
  }

  /** Exactly what the written rule lets through: the valid names, each of
      them followed by one '\n', and a lone '\n'. */
  lemma AcceptsNameAsWrittenExactly(text: string)
    ensures AcceptsNameAsWritten(text) <==>
            || IsValidStatName(text)
            || (|text| >= 1 && text[|text| - 1] == '\n' &&
                (|text| == 1 || IsValidStatName(text[..|text| - 1])))
  {
    if |text| >= 1 && text[|text| - 1] == '\n' {
      assert !AllLetterOrDigit(text) by {
        assert !IsAsciiLetterOrDigit(text[|text| - 1]);
      }
      if |text| >= 2 {
        assert text[..|text| - 1][0] == text[0];
      } else {
        assert AllLetterOrDigit(text[..0]);
      }
    }
  }

  /** The input that shows the gap: "A\n" is accepted, yet it is not an
      identifier, and its declaration line would be broken in two. */
  lemma NameWithTrailingNewlineAccepted()
    ensures AcceptsNameAsWritten("A\n")
    ensures !IsValidStatName("A\n")
  {
    var t := "A\n";
    assert t[..|t| - 1] == "A";
    assert AllLetterOrDigit("A");
    assert !IsAsciiLetterOrDigit(t[1]);
  }

  /** Even the rule as written never lets a space in, so the generated
      script reads back (GenerateScriptRoundTrip needs names without spaces). */
  lemma AcceptedNamesHaveNoSpace(text: string)
    requires AcceptsNameAsWritten(text)
    ensures ' ' !in text
  {
    forall k | 0 <= k < |text| ensures text[k] != ' ' {
      if !AllLetterOrDigit(text) && k < |text| - 1 {
        assert text[k] == text[..|text| - 1][k];
      }
    }
  }

  /** A row after its edits: the id field is always taken, the name text
      only when it is a valid name (the rule as evidently intended). */
  function EditRow(e: StatEntry, row: RowInput): (r: StatEntry)
    ensures r.id == row.id
    ensures IsValidStatName(row.text) ==> r.name == row.text
    ensures !IsValidStatName(row.text) ==> r.name == e.name
    ensures IsValidStatName(e.name) ==> IsValidStatName(r.name)
  {
    if IsValidStatName(row.text) then StatEntry(row.text, row.id) else StatEntry(e.name, row.id)
  }

  // ---------------------------------------------------------------------
  // The row loop

  /** Where the row loop leaves the table, `canSave` and `removeInd`. */
  datatype RowPass = RowPass(stats: seq<StatEntry>, canSave: bool, removeInd: int)

  /** The id the duplicate check of row `k` reads at position `j`, when the
      loop was entered at row `start` with table `cur`: rows `start .. k-1`
      were already rewritten with their new ids. */
  ghost function SeenId(cur: seq<StatEntry>, rows: seq<RowInput>, start: int, k: int, j: int): int
    requires 0 <= j < |cur| == |rows|
  {
    if start <= j < k then rows[j].id else cur[j].id
  }

  /** The check of row `k` finds another position with row `k`'s id. */
  ghost predicate DupAt(cur: seq<StatEntry>, rows: seq<RowInput>, start: int, k: int)
    requires 0 <= k < |cur| == |rows|
  {
    exists j :: 0 <= j < |cur| && j != k && SeenId(cur, rows, start, k, j) == cur[k].id
  }

  /** Rewriting row `start` and moving on to row `after` leaves every later
      row's duplicate check as it was. */
  lemma DupAtStep(cur: seq<StatEntry>, rows: seq<RowInput>, start: int, after: int)
    requires 0 <= start < |cur| == |rows| && after == start + 1
    ensures var next := cur[start := EditRow(cur[start], rows[start])];
            (forall k :: after <= k < |cur| ==> !DupAt(next, rows, after, k)) <==>
            (forall k :: after <= k < |cur| ==> !DupAt(cur, rows, start, k))
  {
    var next := cur[start := EditRow(cur[start], rows[start])];
    forall k | after <= k < |cur|
      ensures DupAt(next, rows, after, k) <==> DupAt(cur, rows, start, k)
    {
      if DupAt(cur, rows, start, k) {
        var j :| 0 <= j < |cur| && j != k && SeenId(cur, rows, start, k, j) == cur[k].id;
        assert SeenId(next, rows, after, k, j) == next[k].id;
      }
      if DupAt(next, rows, after, k) {
        var j :| 0 <= j < |cur| && j != k && SeenId(next, rows, after, k, j) == next[k].id;
        assert SeenId(cur, rows, start, k, j) == cur[k].id;
      }
    }
  }

  /** The `for` loop over the rows from row `start` on: the duplicate check
      of a row runs on the table as rewritten so far, then DEL is noted and
      the row is rewritten. */
  function RowLoop(cur: seq<StatEntry>, rows: seq<RowInput>, start: nat, canSave: bool, removeInd: int): (r: RowPass)
    requires |rows| == |cur| && start <= |cur|
    requires -1 <= removeInd < start
    ensures |r.stats| == |cur|
    ensures forall j :: 0 <= j < start ==> r.stats[j] == cur[j]
    ensures forall j :: start <= j < |cur| ==> r.stats[j] == EditRow(cur[j], rows[j])
    ensures r.canSave <==> canSave && forall k :: start <= k < |cur| ==> !DupAt(cur, rows, start, k)
    ensures (forall j :: start <= j < |cur| ==> !rows[j].delClicked) ==> r.removeInd == removeInd
    ensures (exists j :: start <= j < |cur| && rows[j].delClicked) ==>
              && start <= r.removeInd < |cur| && rows[r.removeInd].delClicked
              && forall j :: r.removeInd < j < |cur| ==> !rows[j].delClicked
    decreases |cur| - start
  {
    if start == |cur| then RowPass(cur, canSave, removeInd)
    else
      var dup := GetStatIndex(cur, cur[start].id, start) != -1;
      assert dup <==> DupAt(cur, rows, start, start) by {
        if dup {
          var j := GetStatIndex(cur, cur[start].id, start);
          assert SeenId(cur, rows, start, start, j) == cur[j].id;
        }
      }
      var removeInd' := if rows[start].delClicked then start else removeInd;
      var next := cur[start := EditRow(cur[start], rows[start])];
      DupAtStep(cur, rows, start, start + 1);
      assert (forall k :: start <= k < |cur| ==> !DupAt(cur, rows, start, k)) <==>
             !DupAt(cur, rows, start, start) && forall k :: start + 1 <= k < |cur| ==> !DupAt(cur, rows, start, k);
      RowLoop(next, rows, start + 1, canSave && !dup, removeInd')
  }

  /** No row's new id equals the old id of a later row: the closed form of
      the row loop's `canSave`, together with the ids being unique before
      the pass. */
  predicate NoStaleClash(stats: seq<StatEntry>, rows: seq<RowInput>)
    requires |rows| == |stats|
  {
    forall j, k :: 0 <= j < k < |stats| ==> rows[j].id != stats[k].id
  }

  lemma {:induction false} NoDupAtFromStart(stats: seq<StatEntry>, rows: seq<RowInput>)
    requires |rows| == |stats|
    ensures (forall k :: 0 <= k < |stats| ==> !DupAt(stats, rows, 0, k)) <==>
            UniqueIds(stats) && NoStaleClash(stats, rows)
  {
    if forall k :: 0 <= k < |stats| ==> !DupAt(stats, rows, 0, k) {
      forall i, j | 0 <= i < |stats| && 0 <= j < |stats| && i != j
        ensures stats[i].id != stats[j].id
      {
        var lo, hi := if i < j then i else j, if i < j then j else i;
        assert !DupAt(stats, rows, 0, lo);
        assert SeenId(stats, rows, 0, lo, hi) == stats[hi].id;
      }
      forall j, k | 0 <= j < k < |stats| ensures rows[j].id != stats[k].id {
        assert !DupAt(stats, rows, 0, k);
        assert SeenId(stats, rows, 0, k, j) == rows[j].id;
      }
    }
    if UniqueIds(stats) && NoStaleClash(stats, rows) {
      forall k | 0 <= k < |stats| ensures !DupAt(stats, rows, 0, k) {
      }
    }
  }

  /** The row loop of one pass over the whole table. `canSave` is false as
      soon as the table had a duplicate id, or a row's new id equals the
      old id of a later row; the table itself is edited row by row. */
  function EditRows(stats: seq<StatEntry>, rows: seq<RowInput>): (r: RowPass)
    requires |rows| == |stats|
    ensures |r.stats| == |stats|
    ensures forall j :: 0 <= j < |stats| ==> r.stats[j] == EditRow(stats[j], rows[j])
    ensures r.canSave <==> UniqueIds(stats) && NoStaleClash(stats, rows)
    ensures r.removeInd == -1 <==> forall j :: 0 <= j < |stats| ==> !rows[j].delClicked
    ensures r.removeInd != -1 ==>
              && 0 <= r.removeInd < |stats| && rows[r.removeInd].delClicked
              && forall j :: r.removeInd < j < |stats| ==> !rows[j].delClicked
  {
    NoDupAtFromStart(stats, rows);
    RowLoop(stats, rows, 0, true, -1)
  }

  /** In a pass that leaves every id as it was (every pass but the one in
      which an ID field is typed into), `canSave` is exactly uniqueness. */
  lemma CanSaveWhenIdsUntouched(stats: seq<StatEntry>, rows: seq<RowInput>)
    requires |rows| == |stats|
    requires forall j :: 0 <= j < |stats| ==> rows[j].id == stats[j].id
    ensures EditRows(stats, rows).canSave <==> UniqueIds(stats)
  {
    if UniqueIds(stats) {
      forall j, k | 0 <= j < k < |stats| ensures rows[j].id != stats[k].id {
        assert rows[j].id == stats[j].id;
      }
    }
  }

  /** In the pass in which an id is typed, the check still reads the older
      value of later rows: moving row 1 onto row 0's id leaves `canSave`
      true for that pass although the table now has a duplicate. */
  lemma EditedIdCheckedNextPass()
    ensures var stats := [StatEntry("A", 1), StatEntry("B", 2)];
            var rows := [RowInput("A", 1, false), RowInput("B", 1, false)];
            var r := EditRows(stats, rows);
            r.canSave && !UniqueIds(r.stats)
  {
    var stats := [StatEntry("A", 1), StatEntry("B", 2)];
    var rows := [RowInput("A", 1, false), RowInput("B", 1, false)];
    var r := EditRows(stats, rows);
    assert r.stats[0].id == 1 && r.stats[1].id == 1;
  }

  // ---------------------------------------------------------------------
  // Removal and Add

  /** The removal after the row loop: the marked row goes, and -1 marks none. */
  function RemoveMarked(stats: seq<StatEntry>, removeInd: int): (r: seq<StatEntry>)
    requires -1 <= removeInd < |stats|
    ensures removeInd == -1 ==> r == stats
    ensures removeInd != -1 ==> |r| == |stats| - 1 && r == stats[..removeInd] + stats[removeInd + 1..]
    ensures UniqueIds(stats) ==> UniqueIds(r)
    ensures AllNamesValid(stats) ==> AllNamesValid(r)
  {
    if removeInd == -1 then stats
    else
      RemoveAtKeepsUniqueIds(stats, removeInd);
      RemoveAtKeepsValidNames(stats, removeInd);
      RemoveAt(stats, removeInd)
  }

  /** The name of the entry Add creates: "Unknown" and the counter in decimal. */
  function UnknownName(counter: nat): (name: string)
    ensures IsValidStatName(name)
  {
    var name := "Unknown" + IntToDecimal(counter);
    assert forall i :: 7 <= i < |name| ==> name[i] == IntToDecimal(counter)[i - 7];
    name
  }

  /** Distinct counter values give distinct names. */
  lemma UnknownNameInjective(a: nat, b: nat)
    requires UnknownName(a) == UnknownName(b)
    ensures a == b
  {
    assert UnknownName(a)[7..] == IntToDecimal(a);
    assert UnknownName(b)[7..] == IntToDecimal(b);
    DecimalInjective(a, b);
  }

  /** The Add button: one entry named from the counter, with the id
      GetAvailableID picks, appended at the end; the counter steps on,
      wrapping as a `uint`. */
  function AddUnknown(stats: seq<StatEntry>, counter: nat): (r: (seq<StatEntry>, nat))
    requires counter < UintModulus
    ensures |r.0| == |stats| + 1 && r.0[..|stats|] == stats
    ensures r.0[|stats|].name == UnknownName(counter)
    ensures |stats| < IntMaxValue - 1 ==> IsLeastFreeId(stats, r.0[|stats|].id)
    ensures r.1 < UintModulus && (r.1 == counter + 1 || (counter == UintModulus - 1 && r.1 == 0))
    ensures UniqueIds(stats) && |stats| < IntMaxValue - 1 ==> UniqueIds(r.0)
    ensures AllNamesValid(stats) ==> AllNamesValid(r.0)
  {
    var e := StatEntry(UnknownName(counter), GetAvailableID(Some(stats)));
    assert (stats + [e])[..|stats|] == stats;
    (stats + [e], (counter + 1) % UintModulus)
  }

  // ---------------------------------------------------------------------
  // One pass of the window

  /** The window's state between passes: the table (`None` until loaded) and
      the counter that names added entries. */
  datatype EditorState = EditorState(stats: Option<seq<StatEntry>>, unknownCount: nat)

  /** What happened in one pass.
      `hasMapper`: a mapper text asset is selected once the Create button
      and the selection field have run; `mapperChanged`: it is not the one
      selected when the pass began; `loaded`: the table GetStatNames reads
      from it (an empty list when its JSON does not parse); `rows`: one
      input per row of the table shown; the three buttons. */
  datatype PassInput = PassInput(
    hasMapper: bool,
    mapperChanged: bool,
    loaded: seq<StatEntry>,
    rows: seq<RowInput>,
    addClicked: bool,
    saveClicked: bool)

  /** The state after the pass, whether Save is enabled, and the text of the
      generated script if Save was clicked. */
  datatype PassResult = PassResult(state: EditorState, saveEnabled: bool, script: Option<string>)

  /** The table the row loop runs on: reloaded when the asset changed or
      nothing is loaded yet. */
  function ShownTable(state: EditorState, input: PassInput): (r: Option<seq<StatEntry>>)
    ensures input.hasMapper ==> r.Some?
    ensures input.hasMapper && (input.mapperChanged || state.stats.None?) ==> r == Some(input.loaded)
    ensures input.hasMapper && !input.mapperChanged && state.stats.Some? ==> r == state.stats
    ensures !input.hasMapper ==> r == state.stats
  {
    if input.hasMapper && (input.mapperChanged || state.stats.None?) then Some(input.loaded)
    else state.stats
  }

  /** The table after the row loop and the removal: each row keeps its
      place and takes its edit, and the row EditRows marks (the last one
      whose DEL was clicked) goes. */
  function KeptRows(shown: seq<StatEntry>, rows: seq<RowInput>): (r: seq<StatEntry>)
    requires |rows| == |shown|
    ensures var d := EditRows(shown, rows).removeInd;
            && (d == -1 ==> |r| == |shown|)
            && (d == -1 ==> forall j :: 0 <= j < |shown| ==> r[j] == EditRow(shown[j], rows[j]))
            && (d != -1 ==> |r| == |shown| - 1)
            && (d != -1 ==> forall j :: 0 <= j < d ==> r[j] == EditRow(shown[j], rows[j]))
            && (d != -1 ==> forall j :: d < j < |shown| ==> r[j - 1] == EditRow(shown[j], rows[j]))
    ensures UniqueIds(EditRows(shown, rows).stats) ==> UniqueIds(r)
    ensures AllNamesValid(shown) ==> AllNamesValid(r)
  {
    var edited := EditRows(shown, rows);
    assert AllNamesValid(shown) ==> AllNamesValid(edited.stats) by {
      if AllNamesValid(shown) {
        forall j | 0 <= j < |edited.stats| ensures IsValidStatName(edited.stats[j].name) {
          assert IsValidStatName(shown[j].name);
        }
      }
    }
    RemoveMarked(edited.stats, edited.removeInd)
  }

  /** What a pass does to the table shown and to the counter: KeptRows,
      and with Add one more entry at the end. */
  function PassTable(shown: seq<StatEntry>, rows: seq<RowInput>, addClicked: bool, counter: nat): (r: (seq<StatEntry>, nat))
    requires counter < UintModulus
    requires |rows| == |shown|
    ensures var kept := KeptRows(shown, rows);
            && |r.0| == |kept| + (if addClicked then 1 else 0)
            && forall j :: 0 <= j < |kept| ==> r.0[j] == kept[j]
    ensures addClicked ==> r.0[|r.0| - 1].name == UnknownName(counter)
    ensures addClicked && |shown| < IntMaxValue - 1 ==> IsLeastFreeId(KeptRows(shown, rows), r.0[|r.0| - 1].id)
    ensures addClicked ==> r.1 == (counter + 1) % UintModulus
    ensures !addClicked ==> r.1 == counter
    ensures r.1 < UintModulus
    ensures UniqueIds(EditRows(shown, rows).stats) && |shown| < IntMaxValue - 1 ==> UniqueIds(r.0)
    ensures AllNamesValid(shown) ==> AllNamesValid(r.0)
  {
    var kept := KeptRows(shown, rows);
    if addClicked then
      var r := AddUnknown(kept, counter);
      assert forall j :: 0 <= j < |kept| ==> r.0[j] == r.0[..|kept|][j];
      r
    else (kept, counter)
  }

  /** The stat list part of OnGUI followed by the Save button. */
  function OnGuiPass(state: EditorState, input: PassInput, newline: string): (r: PassResult)
    requires state.unknownCount < UintModulus
    requires input.hasMapper ==> |input.rows| == |ShownTable(state, input).value|
    ensures r.state.unknownCount < UintModulus
    ensures !input.hasMapper ==> r.state == state && !r.saveEnabled && r.script == None
    ensures input.hasMapper ==> r.state.stats.Some?
    ensures input.hasMapper ==>
              var after := PassTable(ShownTable(state, input).value, input.rows, input.addClicked, state.unknownCount);
              r.state == EditorState(Some(after.0), after.1)
    ensures input.hasMapper ==> r.saveEnabled == EditRows(ShownTable(state, input).value, input.rows).canSave
    ensures r.saveEnabled ==> UniqueIds(ShownTable(state, input).value)
    ensures (input.hasMapper &&
             forall j :: 0 <= j < |input.rows| ==> input.rows[j].id == ShownTable(state, input).value[j].id)
            ==> (r.saveEnabled <==> UniqueIds(ShownTable(state, input).value))
    ensures r.script.Some? <==> r.saveEnabled && input.saveClicked
    ensures r.script.Some? ==> r.script.value == GenerateScript(r.state.stats.value, newline)
  {
    if !input.hasMapper then PassResult(state, false, None)
    else
      var shown := ShownTable(state, input).value;
      var (stats, counter) := PassTable(shown, input.rows, input.addClicked, state.unknownCount);
      var saveEnabled := EditRows(shown, input.rows).canSave;
      var script := if saveEnabled && input.saveClicked then Some(GenerateScript(stats, newline)) else None;
      PassResult(EditorState(Some(stats), counter), saveEnabled, script)
  }

  /** A pass keeps the ids unique: the rows' edits may clash (that is what
      `canSave` is for), but once they do not, removal and Add never create
      a clash. */
  lemma OnGuiPassKeepsUniqueIds(state: EditorState, input: PassInput, newline: string)
    requires state.unknownCount < UintModulus
    requires input.hasMapper && |input.rows| == |ShownTable(state, input).value|
    requires |ShownTable(state, input).value| < IntMaxValue - 1
    requires UniqueIds(EditRows(ShownTable(state, input).value, input.rows).stats)
    ensures UniqueIds(OnGuiPass(state, input, newline).state.stats.value)
  {
  }

  /** In a pass that types no id, Save enabled means the table was unique
      before the pass and still is after it. */
  lemma SaveEnabledMeansUniqueTable(state: EditorState, input: PassInput, newline: string)
    requires state.unknownCount < UintModulus
    requires input.hasMapper && |input.rows| == |ShownTable(state, input).value|
    requires |ShownTable(state, input).value| < IntMaxValue - 1
    requires forall j :: 0 <= j < |input.rows| ==> input.rows[j].id == ShownTable(state, input).value[j].id
    requires OnGuiPass(state, input, newline).saveEnabled
    ensures UniqueIds(ShownTable(state, input).value)
    ensures UniqueIds(OnGuiPass(state, input, newline).state.stats.value)
  {
    var shown := ShownTable(state, input).value;
    var edited := EditRows(shown, input.rows).stats;
    forall i, j | 0 <= i < |edited| && 0 <= j < |edited| && i != j ensures edited[i].id != edited[j].id {
      assert edited[i].id == shown[i].id && edited[j].id == shown[j].id;
    }
    OnGuiPassKeepsUniqueIds(state, input, newline);
  }

  /** Under the corrected name rule of EditRow, only valid names enter the
      table: a table of valid names stays one. (The rule as written lets a
      name with a final '\n' in; see NameWithTrailingNewlineAccepted.) */
  lemma OnGuiPassKeepsValidNames(state: EditorState, input: PassInput, newline: string)
    requires state.unknownCount < UintModulus
    requires input.hasMapper ==> |input.rows| == |ShownTable(state, input).value|
    requires ShownTable(state, input).Some? && AllNamesValid(ShownTable(state, input).value)
    ensures OnGuiPass(state, input, newline).state.stats.Some?
    ensures AllNamesValid(OnGuiPass(state, input, newline).state.stats.value)
  {
    if input.hasMapper {
      var shown := ShownTable(state, input).value;
      var edited := EditRows(shown, input.rows).stats;
      assert AllNamesValid(edited) by {
        forall j | 0 <= j < |edited| ensures IsValidStatName(edited[j].name) {
          assert IsValidStatName(shown[j].name);
        }
      }
    }
  }

  /** The script Save produces, read back, is the table saved. */
  lemma SavedScriptReadsBack(state: EditorState, input: PassInput, newline: string)
    requires state.unknownCount < UintModulus
    requires input.hasMapper ==> |input.rows| == |ShownTable(state, input).value|
    requires ShownTable(state, input).Some? && AllNamesValid(ShownTable(state, input).value)
    ensures var r := OnGuiPass(state, input, newline);
            r.script.Some? ==> ParseScript(r.script.value, newline) == Some(r.state.stats.value)
  {
    var r := OnGuiPass(state, input, newline);
    if r.script.Some? {
      OnGuiPassKeepsValidNames(state, input, newline);
      ValidNamesHaveNoSpace(r.state.stats.value);
      GenerateScriptRoundTrip(r.state.stats.value, newline);
    }
  }
}
