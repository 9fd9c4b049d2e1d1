/**
 The text of the generated `StatID.cs` (GenerateScript): a comment line,
 the struct header, one `public const int` declaration per entry in table
 order, and the closing brace, every line ended by `newline` (what
 StringBuilder.AppendLine writes, Environment.NewLine). `ParseScript`
 reads such a text back into the table it came from.
 */
module StatIdScript {
  import opened Options
  import opened Decimal
  import opened StatsTable

  const HeaderLine: string := "//AUTOGENERATED - DO NOT TOUCH!"
  const OpenLine: string := "public struct StatID {"
  const DeclPrefix: string := "    public const int "
  const CloseLine: string := "}"

  /** The declaration line for one entry, without its line ending: the
      prefix, then the name, then " = ", the id's decimal text and ';'. */
  function DeclLine(e: StatEntry): (line: string)
    ensures |line| == |DeclPrefix| + |e.name| + 3 + |IntToDecimal(e.id)| + 1
    ensures line[..|DeclPrefix|] == DeclPrefix
    ensures line[|DeclPrefix|..|DeclPrefix| + |e.name|] == e.name
    ensures line[|DeclPrefix| + |e.name|..|DeclPrefix| + |e.name| + 3] == " = "
    ensures line[|DeclPrefix| + |e.name| + 3..|line| - 1] == IntToDecimal(e.id)
    ensures line[|line| - 1] == ';'
  {
    var dec := IntToDecimal(e.id);
    var tail := " = " + (dec + ";");
    var afterPrefix := e.name + tail;
    SplitAt(DeclPrefix, afterPrefix);
    SplitAt(e.name, tail);
    SplitAt(" = ", dec + ";");
    SplitAt(dec, ";");
    DeclPrefix + afterPrefix
  }

  /** One declaration line per entry, in table order. */
  function DeclLines(stats: seq<StatEntry>): (lines: seq<string>)
    ensures |lines| == |stats|
    ensures forall i :: 0 <= i < |stats| ==> lines[i] == DeclLine(stats[i])
  {
    seq(|stats|, i requires 0 <= i < |stats| => DeclLine(stats[i]))
  }

  /** The lines of the generated file, in order. */
  function ScriptLines(stats: seq<StatEntry>): (lines: seq<string>)
    ensures |lines| == |stats| + 3
    ensures lines[0] == HeaderLine && lines[1] == OpenLine && lines[|lines| - 1] == CloseLine
    ensures forall i :: 0 <= i < |stats| ==> lines[i + 2] == DeclLine(stats[i])
  {
    [HeaderLine] + ([OpenLine] + (DeclLines(stats) + [CloseLine]))
  }

  /** Every line followed by the line ending, concatenated. */
  function JoinLines(lines: seq<string>, newline: string): string {
    if |lines| == 0 then "" else lines[0] + (newline + JoinLines(lines[1..], newline))
  }

  /** The declarations the loop over the table appends, from entry 0 on. */
  function Decls(stats: seq<StatEntry>, newline: string): string {
    if |stats| == 0 then "" else DeclLine(stats[0]) + (newline + Decls(stats[1..], newline))
  }

  function Preamble(newline: string): string {
    HeaderLine + (newline + (OpenLine + newline))
  }

  function Trailer(newline: string): string {
    CloseLine + newline
  }

  /** GenerateScript, with the file write left out: the text it builds,
      which is the file's lines each ended by `newline`. */
  function GenerateScript(stats: seq<StatEntry>, newline: string): (text: string)
    ensures text == JoinLines(ScriptLines(stats), newline)
  {
    ScriptTextIsJoinedLines(stats, newline);
    Preamble(newline) + (Decls(stats, newline) + Trailer(newline))
  }

  lemma Associate(a: string, b: string, c: string)
    ensures a + (b + c) == a + b + c
  {
  }

  lemma {:induction false} DeclsIsJoinedLines(stats: seq<StatEntry>, newline: string)
    ensures JoinLines(DeclLines(stats), newline) == Decls(stats, newline)
    decreases |stats|
  {
    if |stats| > 0 {
      assert DeclLines(stats)[1..] == DeclLines(stats[1..]);
      DeclsIsJoinedLines(stats[1..], newline);
    }
  }

  lemma {:induction false} JoinLinesAppend(a: seq<string>, b: seq<string>, newline: string)
    ensures JoinLines(a + b, newline) == JoinLines(a, newline) + JoinLines(b, newline)
    decreases |a|
  {
    if |a| == 0 {
      assert a + b == b;
    } else {
      assert (a + b)[1..] == a[1..] + b;
      JoinLinesAppend(a[1..], b, newline);
      var x, y := JoinLines(a[1..], newline), JoinLines(b, newline);
      Associate(newline, x, y);
      Associate(a[0], newline + x, y);
    }
  }

  /** The text shape with the fixed lines left abstract. */
  lemma JoinedShape(header: string, open: string, decls: seq<string>, close: string, newline: string)
    ensures JoinLines([header] + ([open] + (decls + [close])), newline)
         == header + (newline + (open + newline)) + (JoinLines(decls, newline) + (close + newline))
  {
    var d := JoinLines(decls, newline);
    var c := close + newline;
    assert ([header] + ([open] + (decls + [close])))[1..] == [open] + (decls + [close]);
    assert ([open] + (decls + [close]))[1..] == decls + [close];
    JoinLinesAppend(decls, [close], newline);
    assert [close][1..] == [];
    assert JoinLines([close], newline) == c;
    Associate(open, newline, d + c);
    Associate(newline, open + newline, d + c);
    Associate(header, newline + (open + newline), d + c);
  }

  lemma ScriptTextIsJoinedLines(stats: seq<StatEntry>, newline: string)
    ensures Preamble(newline) + (Decls(stats, newline) + Trailer(newline))
         == JoinLines(ScriptLines(stats), newline)
  {
    JoinedShape(HeaderLine, OpenLine, DeclLines(stats), CloseLine, newline);
    DeclsIsJoinedLines(stats, newline);
  }

  /** The longest prefix of `t` that does not contain `c`. */
  function TakeUntil(t: string, c: char): (r: string)
    ensures |r| <= |t| && r == t[..|r|]
    ensures c !in r
  {
    if |t| == 0 || t[0] == c then "" else [t[0]] + TakeUntil(t[1..], c)
  }

  lemma {:induction false} TakeUntilStopsAt(a: string, c: char, b: string)
    requires c !in a
    requires |b| > 0 && b[0] == c
    ensures TakeUntil(a + b, c) == a
    decreases |a|
  {
    if |a| > 0 {
      assert (a + b)[1..] == a[1..] + b;
      TakeUntilStopsAt(a[1..], c, b);
    }
  }

  /** What follows the literal `lit` at the front of `t`, if `t` starts with it. */
  function AfterLiteral(t: string, lit: string): (r: Option<string>)
    ensures r.Some? ==> |r.value| == |t| - |lit|
  {
    if |lit| <= |t| && t[..|lit|] == lit then Some(t[|lit|..]) else None
  }

  lemma AfterLiteralOfConcat(lit: string, s: string)
    ensures AfterLiteral(lit + s, lit) == Some(s)
  {
    assert (lit + s)[..|lit|] == lit;
    assert (lit + s)[|lit|..] == s;
  }

  lemma SuffixOfConcat(a: string, b: string)
    ensures (a + b)[|a|..] == b
  {
  }

  /** Reads one declaration line and its line ending off the front of `t`;
      the remaining text is returned with the entry. */
  function ParseDecl(t: string, newline: string): (r: Option<(StatEntry, string)>)
    ensures r.Some? ==> |r.value.1| < |t|
  {
    match AfterLiteral(t, DeclPrefix)
    case None => None
    case Some(afterPrefix) => ParseNameAndId(afterPrefix, newline)
  }

  /** The part of a declaration after `public const int `: name, " = ", id. */
  function ParseNameAndId(t: string, newline: string): (r: Option<(StatEntry, string)>)
    ensures r.Some? ==> |r.value.1| < |t|
  {
    var name := TakeUntil(t, ' ');
    match AfterLiteral(t[|name|..], " = ")
    case None => None
    case Some(afterEq) => ParseIdAndEnd(name, afterEq, newline)
  }

  /** The id of a declaration named `name`, its ';' and the line ending. */
  function ParseIdAndEnd(name: string, t: string, newline: string): (r: Option<(StatEntry, string)>)
    ensures r.Some? ==> |r.value.1| < |t|
  {
    var idText := TakeUntil(t, ';');
    match AfterLiteral(t[|idText|..], ";" + newline)
    case None => None
    case Some(rest) =>
      match ParseInt(idText)
      case None => None
      case Some(id) => Some((StatEntry(name, id), rest))
  }

  /** Reads a run of declaration lines that makes up all of `t`. */
  function ParseDecls(t: string, newline: string): Option<seq<StatEntry>>
    decreases |t|
  {
    if |t| == 0 then Some([])
    else
      match ParseDecl(t, newline)
      case None => None
      case Some((e, rest)) =>
        match ParseDecls(rest, newline)
        case None => None
        case Some(es) => Some([e] + es)
  }

  /** Reads back a whole generated file. */
  function ParseScript(text: string, newline: string): Option<seq<StatEntry>> {
    match Unframe(text, Preamble(newline), Trailer(newline))
    case None => None
    case Some(body) => ParseDecls(body, newline)
  }

  /** The text between the fixed text `pre` at the front and `post` at the end. */
  function Unframe(text: string, pre: string, post: string): (r: Option<string>)
    ensures r.Some? ==> text == pre + (r.value + post)
  {
    if |pre| + |post| <= |text| && text[..|pre|] == pre && text[|text| - |post|..] == post
    then
      var body := text[|pre|..|text| - |post|];
      assert text == text[..|pre|] + (body + text[|text| - |post|..]);
      Some(body)
    else None
  }

  /** No name contains a space, so each name ends where its declaration's
      " = " begins. */
  predicate NamesWithoutSpace(stats: seq<StatEntry>) {
    forall i :: 0 <= i < |stats| ==> ' ' !in stats[i].name
  }

  lemma ValidNamesHaveNoSpace(stats: seq<StatEntry>)
    requires AllNamesValid(stats)
    ensures NamesWithoutSpace(stats)
  {
  }

  lemma ParseIdAndEndOf(name: string, id: int, newline: string, rest: string)
    ensures ParseIdAndEnd(name, IntToDecimal(id) + (";" + (newline + rest)), newline)
         == Some((StatEntry(name, id), rest))
  {
    var dec := IntToDecimal(id);
    var tail := ";" + (newline + rest);
    TakeUntilStopsAt(dec, ';', tail);
    SuffixOfConcat(dec, tail);
    Associate(";", newline, rest);
    AfterLiteralOfConcat(";" + newline, rest);
    DecimalRoundTrip(id);
  }

  lemma ParseNameAndIdOf(e: StatEntry, newline: string, rest: string)
    requires ' ' !in e.name
    ensures ParseNameAndId(e.name + (" = " + (IntToDecimal(e.id) + (";" + (newline + rest)))), newline)
         == Some((e, rest))
  {
    var afterEq := IntToDecimal(e.id) + (";" + (newline + rest));
    var tail := " = " + afterEq;
    TakeUntilStopsAt(e.name, ' ', tail);
    SuffixOfConcat(e.name, tail);
    AfterLiteralOfConcat(" = ", afterEq);
    ParseIdAndEndOf(e.name, e.id, newline, rest);
  }

  lemma ParseDeclLine(e: StatEntry, newline: string, rest: string)
    requires ' ' !in e.name
    ensures ParseDecl(DeclLine(e) + (newline + rest), newline) == Some((e, rest))
  {
    var dec := IntToDecimal(e.id);
    var nr := newline + rest;
    Associate(dec, ";", nr);
    Associate(" = ", dec + ";", nr);
    Associate(e.name, " = " + (dec + ";"), nr);
    Associate(DeclPrefix, e.name + (" = " + (dec + ";")), nr);
    AfterLiteralOfConcat(DeclPrefix, e.name + (" = " + (dec + (";" + nr))));
    ParseNameAndIdOf(e, newline, rest);
  }

  lemma {:induction false} ParseDeclsOfDecls(stats: seq<StatEntry>, newline: string)
    requires NamesWithoutSpace(stats)
    ensures ParseDecls(Decls(stats, newline), newline) == Some(stats)
    decreases |stats|
  {
    if |stats| > 0 {
      var text := Decls(stats, newline);
      var rest := Decls(stats[1..], newline);
      assert ' ' !in stats[0].name;
      ParseDeclLine(stats[0], newline, rest);
      ParseDeclsOfDecls(stats[1..], newline);
      assert [stats[0]] + stats[1..] == stats;
    }
  }

  /** The generated file loses nothing: reading it back gives the table,
      names, ids and order, whatever the line ending. */
  lemma GenerateScriptRoundTrip(stats: seq<StatEntry>, newline: string)
    requires NamesWithoutSpace(stats)
    ensures ParseScript(GenerateScript(stats, newline), newline) == Some(stats)
  {
    var pre, body, post := Preamble(newline), Decls(stats, newline), Trailer(newline);
    assert GenerateScript(stats, newline) == pre + (body + post);
    UnframeOf(pre, body, post);
    ParseDeclsOfDecls(stats, newline);
  }

  /** A framed text is cut back into its frame and the text it frames. */
  lemma UnframeOf(pre: string, body: string, post: string)
    ensures Unframe(pre + (body + post), pre, post) == Some(body)
  {
    var rest := body + post;
    var text := pre + rest;
    SplitAt(pre, rest);
    SplitAt(body, post);
    var n := |text| - |post|;
    assert text[n..] == rest[|body|..];
    assert text[|pre|..n] == rest[..|body|];
  }

  lemma SplitAt(a: string, b: string)
    ensures (a + b)[..|a|] == a && (a + b)[|a|..] == b
  {
  }
}
