/** The delimited-text reader: one line into trimmed fields (parseDataLine),
    a whole file into goal records (parseDataFile). */
module DelimitedReader {
  import opened Records
  import opened Text

  /** `,` for CSV, a tab otherwise. */
  function Delimiter(isCSV: bool): char {
    if isCSV then ',' else '\t'
  }

  /** What the line scanner does at one position. */
  datatype Token =
    | EscapedQuote   // `""` inside quotes: one `"` of text, two characters consumed
    | QuoteToggle    // any other `"`: enters or leaves quoting and emits nothing
    | FieldBreak     // a delimiter outside quotes
    | Char(c: char)  // any other character, kept as text

  /** The scanner's view of `line`, starting inside quotes when `inQ`. */
  function Lex(line: string, delim: char, inQ: bool): seq<Token>
    decreases |line|
  {
    if line == [] then []
    else if line[0] == '"' then
      if inQ && |line| > 1 && line[1] == '"' then [EscapedQuote] + Lex(line[2..], delim, inQ)
      else [QuoteToggle] + Lex(line[1..], delim, !inQ)
    else if line[0] == delim && !inQ then [FieldBreak] + Lex(line[1..], delim, inQ)
    else [Char(line[0])] + Lex(line[1..], delim, inQ)
  }

  function CountBreaks(toks: seq<Token>): nat {
    if toks == [] then 0 else (if toks[0] == FieldBreak then 1 else 0) + CountBreaks(toks[1..])
  }

  /** The untrimmed fields a token stream spells: cut at every field break. */
  function RawFields(toks: seq<Token>): (r: seq<string>)
    ensures |r| == 1 + CountBreaks(toks)
  {
    if toks == [] then [""]
    else
      var rest := RawFields(toks[1..]);
      match toks[0]
      case FieldBreak => [""] + rest
      case QuoteToggle => rest
      case EscapedQuote => ["\"" + rest[0]] + rest[1..]
      case Char(c) => [[c] + rest[0]] + rest[1..]
  }

  function TrimAll(fs: seq<string>): (r: seq<string>)
    ensures |r| == |fs| && forall k :: 0 <= k < |fs| ==> r[k] == Trim(fs[k])
  {
    if fs == [] then [] else [Trim(fs[0])] + TrimAll(fs[1..])
  }

  /** `p` glued to the front of the first field. */
  function Prepend(p: string, fs: seq<string>): seq<string>
    requires |fs| >= 1
  {
    [p + fs[0]] + fs[1..]
  }

  /** What parseDataLine returns: at least one field, one more than the
      delimiters seen outside quotes, each of them trimmed. */
  function Fields(line: string, delim: char): seq<string> {
    TrimAll(RawFields(Lex(line, delim, false)))
  }

  /** A line has one field more than it has delimiters outside quotes, and
      every field is trimmed. */
  lemma FieldsShape(line: string, delim: char)
    ensures |Fields(line, delim)| == 1 + CountBreaks(Lex(line, delim, false))
    ensures forall k :: 0 <= k < |Fields(line, delim)| ==> IsTrimmed(Fields(line, delim)[k])
  {
    var raw := RawFields(Lex(line, delim, false));
    forall k | 0 <= k < |raw|
      ensures IsTrimmed(Fields(line, delim)[k])
    {
      TrimIsTrimmed(raw[k]);
    }
  }

  lemma PrependEmpty(fs: seq<string>)
    requires |fs| >= 1
    ensures Prepend("", fs) == fs
  {
    assert "" + fs[0] == fs[0];
    assert fs == [fs[0]] + fs[1..];
  }

  /** The fields still to come when the scanner is at position `i` of `line`,
      in quoting state `inQ`, with `curr` read so far into the current field:
      one step of the scanner per call. */
  function Remaining(line: string, i: nat, delim: char, inQ: bool, curr: string): seq<string>
    requires i <= |line|
    decreases |line| - i
  {
    if i == |line| then [Trim(curr)]
    else if line[i] == '"' then
      if inQ && i + 1 < |line| && line[i + 1] == '"' then Remaining(line, i + 2, delim, inQ, curr + "\"")
      else Remaining(line, i + 1, delim, !inQ, curr)
    else if line[i] == delim && !inQ then [Trim(curr)] + Remaining(line, i + 1, delim, inQ, "")
    else Remaining(line, i + 1, delim, inQ, curr + [line[i]])
  }

  /** The same fields seen through the tokens of the rest of the line. */
  function TokenView(line: string, i: nat, delim: char, inQ: bool, curr: string): seq<string>
    requires i <= |line|
  {
    TrimAll(Prepend(curr, RawFields(Lex(line[i..], delim, inQ))))
  }

  lemma ViewQuote(line: string, i: nat, delim: char, inQ: bool, curr: string)
    requires i < |line| && line[i] == '"'
    ensures inQ && i + 1 < |line| && line[i + 1] == '"' ==>
      TokenView(line, i, delim, inQ, curr) == TokenView(line, i + 2, delim, inQ, curr + "\"")
    ensures !(inQ && i + 1 < |line| && line[i + 1] == '"') ==>
      TokenView(line, i, delim, inQ, curr) == TokenView(line, i + 1, delim, !inQ, curr)
  {
    var s := line[i..];
    if inQ && i + 1 < |line| && line[i + 1] == '"' {
      assert s[2..] == line[i + 2..];
      var toks := Lex(line[i + 2..], delim, inQ);
      assert Lex(s, delim, inQ) == [EscapedQuote] + toks;
      assert ([EscapedQuote] + toks)[1..] == toks;
      var rest := RawFields(toks);
      assert curr + ("\"" + rest[0]) == curr + "\"" + rest[0];
    } else {
      assert s[1..] == line[i + 1..];
      var toks := Lex(line[i + 1..], delim, !inQ);
      assert Lex(s, delim, inQ) == [QuoteToggle] + toks;
      assert ([QuoteToggle] + toks)[1..] == toks;
    }
  }

  lemma ViewBreak(line: string, i: nat, delim: char, curr: string)
    requires i < |line| && line[i] == delim && line[i] != '"'
    ensures TokenView(line, i, delim, false, curr) == [Trim(curr)] + TokenView(line, i + 1, delim, false, "")
  {
    var s := line[i..];
    assert s[1..] == line[i + 1..];
    var toks := Lex(line[i + 1..], delim, false);
    assert Lex(s, delim, false) == [FieldBreak] + toks;
    assert ([FieldBreak] + toks)[1..] == toks;
    var rest := RawFields(toks);
    PrependEmpty(rest);
    assert curr + "" == curr;
    var p := Prepend(curr, [""] + rest);
    assert p == [curr] + rest;
    assert TrimAll(p) == [Trim(curr)] + TrimAll(rest);
  }

  lemma ViewChar(line: string, i: nat, delim: char, inQ: bool, curr: string)
    requires i < |line| && line[i] != '"' && !(line[i] == delim && !inQ)
    ensures TokenView(line, i, delim, inQ, curr) == TokenView(line, i + 1, delim, inQ, curr + [line[i]])
  {
    var s := line[i..];
    assert s[1..] == line[i + 1..];
    var toks := Lex(line[i + 1..], delim, inQ);
    assert Lex(s, delim, inQ) == [Char(line[i])] + toks;
    assert ([Char(line[i])] + toks)[1..] == toks;
    var rest := RawFields(toks);
    assert curr + ([line[i]] + rest[0]) == curr + [line[i]] + rest[0];
  }

  lemma ViewEnd(line: string, delim: char, inQ: bool, curr: string)
    ensures TokenView(line, |line|, delim, inQ, curr) == [Trim(curr)]
  {
    assert line[|line|..] == [];
    assert curr + "" == curr;
    assert Prepend(curr, [""]) == [curr];
  }

  /** The scanner's steps agree with the token view of the rest of the line. */
  lemma {:induction false} RemainingIsFields(line: string, i: nat, delim: char, inQ: bool, curr: string)
    requires i <= |line|
    ensures Remaining(line, i, delim, inQ, curr) == TokenView(line, i, delim, inQ, curr)
    decreases |line| - i
  {
    if i == |line| {
      ViewEnd(line, delim, inQ, curr);
    } else if line[i] == '"' {
      ViewQuote(line, i, delim, inQ, curr);
      if inQ && i + 1 < |line| && line[i + 1] == '"' {
        RemainingIsFields(line, i + 2, delim, inQ, curr + "\"");
      } else {
        RemainingIsFields(line, i + 1, delim, !inQ, curr);
      }
    } else if line[i] == delim && !inQ {
      ViewBreak(line, i, delim, curr);
      RemainingIsFields(line, i + 1, delim, inQ, "");
    } else {
      ViewChar(line, i, delim, inQ, curr);
      RemainingIsFields(line, i + 1, delim, inQ, curr + [line[i]]);
    }
  }

  lemma FieldsByScan(line: string, delim: char)
    ensures Fields(line, delim) == Remaining(line, 0, delim, false, "")
  {
    RemainingIsFields(line, 0, delim, false, "");
    assert line[0..] == line;
    PrependEmpty(RawFields(Lex(line, delim, false)));
  }

  /** parseDataLine: a character loop that keeps the current field and the
      quoting state, and skips ahead over an escaped quote. */
  method ParseDataLine(line: string, isCSV: bool) returns (result: seq<string>)
    ensures result == Fields(line, Delimiter(isCSV))
  {
    var delim := Delimiter(isCSV);
    result := [];
    var curr := "";
    var inQ := false;
    var i := 0;
    while i < |line|
      invariant 0 <= i <= |line|
      invariant Remaining(line, 0, delim, false, "") == result + Remaining(line, i, delim, inQ, curr)
    {
      var ch := line[i];
      if ch == '"' {
        if inQ && i + 1 < |line| && line[i + 1] == '"' {
          curr := curr + "\"";
          i := i + 1;
        } else {
          inQ := !inQ;
        }
      } else if ch == delim && !inQ {
        result := result + [Trim(curr)];
        curr := "";
      } else {
        curr := curr + [ch];
      }
      i := i + 1;
    }
    result := result + [Trim(curr)];
    FieldsByScan(line, delim);
  }

  /** A `"` character never reaches a field as itself: it either toggles
      quoting or, doubled inside quotes, stands for one `"`. */
  lemma {:induction false} QuoteNeverKept(line: string, delim: char, inQ: bool)
    ensures Char('"') !in Lex(line, delim, inQ)
    decreases |line|
  {
    if line != [] {
      if line[0] == '"' && inQ && |line| > 1 && line[1] == '"' {
        QuoteNeverKept(line[2..], delim, inQ);
      } else if line[0] == '"' {
        QuoteNeverKept(line[1..], delim, !inQ);
      } else {
        QuoteNeverKept(line[1..], delim, inQ);
      }
    }
  }

  /** A line without quotes is split at every delimiter, as a plain split would. */
  lemma {:induction false} UnquotedLineSplits(line: string, delim: char)
    requires '"' !in line
    ensures RawFields(Lex(line, delim, false)) == Split(line, delim)
    ensures Fields(line, delim) == TrimAll(Split(line, delim))
  {
    if line != [] {
      UnquotedLineSplits(line[1..], delim);
      var toks := Lex(line[1..], delim, false);
      if line[0] == delim {
        assert Lex(line, delim, false) == [FieldBreak] + toks;
        assert ([FieldBreak] + toks)[1..] == toks;
      } else {
        assert Lex(line, delim, false) == [Char(line[0])] + toks;
        assert ([Char(line[0])] + toks)[1..] == toks;
      }
    }
  }

  /** The writing side of the quoting convention: `"` doubled inside a quoted field. */
  function Escape(s: string): string {
    if s == [] then [] else (if s[0] == '"' then "\"\"" else [s[0]]) + Escape(s[1..])
  }

  function Quote(s: string): string {
    "\"" + Escape(s) + "\""
  }

  /** Quoted fields joined with the delimiter. */
  function JoinQuoted(fs: seq<string>, delim: char): string
    requires |fs| >= 1
  {
    if |fs| == 1 then Quote(fs[0]) else Quote(fs[0]) + [delim] + JoinQuoted(fs[1..], delim)
  }

  /** The tokens that the inside of a quoted field lexes to. */
  function QuotedTokens(s: string): seq<Token> {
    if s == [] then [] else [if s[0] == '"' then EscapedQuote else Char(s[0])] + QuotedTokens(s[1..])
  }

  lemma {:induction false} LexEscaped(s: string, r: string, delim: char)
    requires delim != '"'
    requires r == [] || r[0] != '"'
    ensures Lex(Escape(s) + "\"" + r, delim, true) == QuotedTokens(s) + [QuoteToggle] + Lex(r, delim, false)
  {
    var line := Escape(s) + "\"" + r;
    if s == [] {
      assert line == "\"" + r;
      assert line[1..] == r;
    } else {
      LexEscaped(s[1..], r, delim);
      var tail := Escape(s[1..]) + "\"" + r;
      if s[0] == '"' {
        assert line == "\"\"" + tail;
        assert line[2..] == tail;
      } else {
        assert line == [s[0]] + tail;
        assert line[1..] == tail;
      }
    }
  }

  lemma RawFieldsBreak(toks: seq<Token>)
    ensures RawFields([FieldBreak] + toks) == [""] + RawFields(toks)
  {
    assert ([FieldBreak] + toks)[1..] == toks;
  }

  lemma RawFieldsToggle(toks: seq<Token>)
    ensures RawFields([QuoteToggle] + toks) == RawFields(toks)
  {
    assert ([QuoteToggle] + toks)[1..] == toks;
  }

  /** A token that stands for one character of text. */
  lemma RawFieldsText(t: Token, c: char, toks: seq<Token>)
    requires (t == EscapedQuote && c == '"') || t == Char(c)
    ensures RawFields([t] + toks) == Prepend([c], RawFields(toks))
  {
    assert ([t] + toks)[1..] == toks;
  }

  lemma RawFieldsQuotedStep(s: string, toks: seq<Token>)
    requires s != []
    requires RawFields(QuotedTokens(s[1..]) + toks) == Prepend(s[1..], RawFields(toks))
    ensures RawFields(QuotedTokens(s) + toks) == Prepend(s, RawFields(toks))
  {
    var rest := RawFields(toks);
    var t := if s[0] == '"' then EscapedQuote else Char(s[0]);
    var more := QuotedTokens(s[1..]) + toks;
    assert QuotedTokens(s) == [t] + QuotedTokens(s[1..]);
    assert QuotedTokens(s) + toks == [t] + more;
    RawFieldsText(t, s[0], more);
    var mid := RawFields(more);
    assert mid[0] == s[1..] + rest[0];
    assert mid[1..] == rest[1..];
    HeadThenTail(s, rest[0]);
  }

  lemma HeadThenTail(s: string, w: string)
    requires s != []
    ensures [s[0]] + (s[1..] + w) == s + w
  {
    assert s == [s[0]] + s[1..];
  }

  lemma {:induction false} RawFieldsQuoted(s: string, toks: seq<Token>)
    ensures RawFields(QuotedTokens(s) + toks) == Prepend(s, RawFields(toks))
  {
    if s == [] {
      var rest := RawFields(toks);
      assert QuotedTokens(s) + toks == toks;
      assert s + rest[0] == rest[0];
      assert rest == [rest[0]] + rest[1..];
    } else {
      RawFieldsQuoted(s[1..], toks);
      RawFieldsQuotedStep(s, toks);
    }
  }

  lemma LexQuotedField(s: string, r: string, delim: char)
    requires delim != '"'
    requires r == [] || r[0] != '"'
    ensures RawFields(Lex(Quote(s) + r, delim, false)) == Prepend(s, RawFields(Lex(r, delim, false)))
  {
    var line := Quote(s) + r;
    assert line[1..] == Escape(s) + "\"" + r;
    LexEscaped(s, r, delim);
    var toks := Lex(r, delim, false);
    var inner := QuotedTokens(s) + ([QuoteToggle] + toks);
    assert Lex(line, delim, false) == [QuoteToggle] + inner;
    RawFieldsToggle(inner);
    RawFieldsQuoted(s, [QuoteToggle] + toks);
    RawFieldsToggle(toks);
  }

  lemma LexBreak(tail: string, delim: char)
    requires delim != '"'
    ensures RawFields(Lex([delim] + tail, delim, false)) == [""] + RawFields(Lex(tail, delim, false))
  {
    var line := [delim] + tail;
    assert line[1..] == tail;
    var toks := Lex(tail, delim, false);
    assert Lex(line, delim, false) == [FieldBreak] + toks;
    RawFieldsBreak(toks);
  }

  /** Fields written with the quoting convention read back as themselves:
      delimiters and quotes inside them survive. */
  lemma {:induction false} QuotedFieldsRoundTrip(fs: seq<string>, delim: char)
    requires |fs| >= 1
    requires delim != '"'
    ensures RawFields(Lex(JoinQuoted(fs, delim), delim, false)) == fs
  {
    if |fs| == 1 {
      LexQuotedField(fs[0], "", delim);
      assert Quote(fs[0]) + "" == Quote(fs[0]);
      assert fs[0] + "" == fs[0];
    } else {
      var tail := JoinQuoted(fs[1..], delim);
      QuotedFieldsRoundTrip(fs[1..], delim);
      assert JoinQuoted(fs, delim) == Quote(fs[0]) + ([delim] + tail);
      LexQuotedField(fs[0], [delim] + tail, delim);
      LexBreak(tail, delim);
      assert fs[0] + "" == fs[0];
      assert fs == [fs[0]] + fs[1..];
    }
  }

  /** ... and so parseDataLine gives them back trimmed. */
  lemma QuotedFieldsRead(fs: seq<string>, delim: char)
    requires |fs| >= 1
    requires delim != '"'
    ensures Fields(JoinQuoted(fs, delim), delim) == TrimAll(fs)
  {
    QuotedFieldsRoundTrip(fs, delim);
  }

  /** The header names the reader looks for. */
  const ExpectedHeaders: seq<string> := ["目標ID", "親目標ID", "目標名", "説明", "アイコンURL", "URL"]

  /** What is actually searched for: `h.replace('URL', '')`. */
  function Fragment(h: string): string {
    ReplaceFirst(h, "URL", "")
  }

  /** Some header cell contains `frag`. */
  predicate Found(headers: seq<string>, frag: string) {
    exists x :: x in headers && Contains(x, frag)
  }

  /** Every expected header's fragment is contained in some header cell. */
  predicate HeaderOk(headers: seq<string>) {
    forall i :: 0 <= i < |ExpectedHeaders| ==> Found(headers, Fragment(ExpectedHeaders[i]))
  }

  /** The fragments that can fail: `URL` is searched as the empty string and
      `アイコンURL` as `アイコン`. */
  const RequiredFragments: seq<string> := ["目標ID", "親目標ID", "目標名", "説明", "アイコン"]

  lemma ExpectedFragmentValues()
    ensures Fragment("目標ID") == "目標ID"
    ensures Fragment("親目標ID") == "親目標ID"
    ensures Fragment("目標名") == "目標名"
    ensures Fragment("説明") == "説明"
    ensures Fragment("アイコンURL") == "アイコン"
    ensures Fragment("URL") == ""
  {
    var pat := "URL";
    AbsentByFirst("目標ID", pat);
    ReplaceAbsent("目標ID", pat, "");
    AbsentByFirst("親目標ID", pat);
    ReplaceAbsent("親目標ID", pat, "");
    AbsentByFirst("目標名", pat);
    ReplaceAbsent("目標名", pat, "");
    AbsentByFirst("説明", pat);
    ReplaceAbsent("説明", pat, "");
    ReplaceAfter("アイコン", pat, "", "");
    assert "アイコン" + pat + "" == "アイコンURL";
    ReplaceAfter("", pat, "", "");
    assert "" + pat + "" == "URL";
  }

  /** The header check, as it behaves on a non-empty header row: the `URL`
      entry always passes and the other five are substring searches. */
  lemma HeaderOkMeaning(headers: seq<string>)
    requires |headers| >= 1
    ensures HeaderOk(headers) <==>
      forall i :: 0 <= i < |RequiredFragments| ==> Found(headers, RequiredFragments[i])
  {
    ExpectedFragmentValues();
    ContainsEmpty(headers[0]);
    assert Found(headers, "");
    forall i | 0 <= i < |RequiredFragments|
      ensures Fragment(ExpectedHeaders[i]) == RequiredFragments[i]
    {
      if i == 0 {} else if i == 1 {} else if i == 2 {} else if i == 3 {} else {}
    }
    assert Fragment(ExpectedHeaders[5]) == "";
  }

  /** Field `k` read as an integer, 0 when missing or not a number. */
  function Coordinate(vals: seq<string>, k: nat): int {
    if k < |vals| then IntOrZero(vals[k]) else 0
  }

  function ToRecord(vals: seq<string>): Node
    requires |vals| >= 6
  {
    Node(vals[0], vals[1], vals[2], vals[3], vals[4], vals[5], Coordinate(vals, 6), Coordinate(vals, 7))
  }

  /** The record one data line contributes: none for a blank line or one with
      fewer than six fields. */
  function RowOf(line: string, delim: char): seq<Node> {
    if Trim(line) == "" then []
    else
      var vals := Fields(line, delim);
      if |vals| >= 6 then [ToRecord(vals)] else []
  }

  /** The records of a run of data lines, in order. */
  function DataRows(lines: seq<string>, delim: char): (rows: seq<Node>)
    ensures |rows| <= |lines|
  {
    if lines == [] then [] else DataRows(lines[..|lines| - 1], delim) + RowOf(lines[|lines| - 1], delim)
  }

  lemma DataRowsSnoc(lines: seq<string>, line: string, delim: char)
    ensures DataRows(lines + [line], delim) == DataRows(lines, delim) + RowOf(line, delim)
  {
    var all := lines + [line];
    assert all[..|all| - 1] == lines;
    assert all[|all| - 1] == line;
  }

  lemma DataRowsStep(lines: seq<string>, i: nat, delim: char)
    requires 1 <= i < |lines|
    ensures DataRows(lines[1..i + 1], delim) == DataRows(lines[1..i], delim) + RowOf(lines[i], delim)
  {
    assert lines[1..i + 1] == lines[1..i] + [lines[i]];
    DataRowsSnoc(lines[1..i], lines[i], delim);
  }

  /** Reading two runs of lines reads each run in turn: rows keep the order of
      their lines and each line is read on its own. */
  lemma {:induction false} DataRowsAppend(a: seq<string>, b: seq<string>, delim: char)
    ensures DataRows(a + b, delim) == DataRows(a, delim) + DataRows(b, delim)
    decreases |b|
  {
    if b == [] {
      assert a + b == a;
    } else {
      var b' := b[..|b| - 1];
      var last := b[|b| - 1];
      assert b == b' + [last];
      assert a + b == (a + b') + [last];
      calc {
        DataRows(a + b, delim);
        { DataRowsSnoc(a + b', last, delim); }
        DataRows(a + b', delim) + RowOf(last, delim);
        { DataRowsAppend(a, b', delim); }
        DataRows(a, delim) + DataRows(b', delim) + RowOf(last, delim);
        { DataRowsSnoc(b', last, delim); }
        DataRows(a, delim) + DataRows(b, delim);
      }
    }
  }

  datatype ReadError =
    | NoHeaderRow  // fewer than two lines after trimming
    | BadHeader    // some expected header fragment is in no header cell

  /** parseDataFile: split the trimmed text into lines, check the header row,
      then read every data line in turn. */
  method ParseDataFile(text: string, isCSV: bool) returns (res: Result<seq<Node>, ReadError>)
    ensures var lines := Split(Trim(text), '\n');
      if |lines| < 2 then res == Err(NoHeaderRow)
      else if !HeaderOk(Fields(lines[0], Delimiter(isCSV))) then res == Err(BadHeader)
      else res == Ok(DataRows(lines[1..], Delimiter(isCSV)))
  {
    var lines := Split(Trim(text), '\n');
    if |lines| < 2 {
      return Err(NoHeaderRow);
    }
    var headers := ParseDataLine(lines[0], isCSV);
    if !HeaderOk(headers) {
      return Err(BadHeader);
    }
    var data: seq<Node> := [];
    var i := 1;
    while i < |lines|
      invariant 1 <= i <= |lines|
      invariant data == DataRows(lines[1..i], Delimiter(isCSV))
    {
      DataRowsStep(lines, i, Delimiter(isCSV));
      if Trim(lines[i]) != "" {
        var vals := ParseDataLine(lines[i], isCSV);
        if |vals| >= 6 {
          data := data + [ToRecord(vals)];
        }
        assert data == DataRows(lines[1..i + 1], Delimiter(isCSV));
      }
      i := i + 1;
    }
    assert lines[1..i] == lines[1..];
    return Ok(data);
  }
}
