/** The heat-params file: KEY=VALUE lines as the scenarios print them and the reconciler reads them. */
module HeatParams {
  import opened Text
  import opened GoQuote

  datatype Pair = Pair(name: string, value: string)
  datatype Result<+T> = Ok(value: T) | LineTooLong

  // ---------------------------------------------------------------- reading

  /** The scanner gives up on a line of this many bytes. */
  const LINE_LIMIT: nat := 4 * 1024 * 1024

  /** Length in UTF-8. */
  function ByteLength(s: string): nat {
    if s == "" then 0
    else
      var c := s[0] as int;
      (if c < 0x80 then 1 else if c < 0x800 then 2 else if c < 0x10000 then 3 else 4) + ByteLength(s[1..])
  }

  predicate Fits(line: string) {
    ByteLength(line) < LINE_LIMIT
  }

  /** bufio.ScanLines: a final newline does not start another line. */
  function ScannedLines(content: string): seq<string> {
    var lines := Split(content, '\n');
    if lines[|lines| - 1] == "" then lines[..|lines| - 1] else lines
  }

  function DecodeValue(v: string): string {
    if |v| >= 2 && v[0] == '"' && v[|v| - 1] == '"' && Unquote(v).Some? then Unquote(v).value
    else if |v| >= 2 && v[0] == '\'' && v[|v| - 1] == '\'' then v[1..|v| - 1]
    else v
  }

  /** What one line sets, if anything. */
  function ParseLine(raw: string): Option<Pair> {
    var line := TrimSpace(raw);
    if line == "" || line[0] == '#' then None
    else
      var i := FirstIndex(line, '=');
      if i == |line| || TrimSpace(line[..i]) == "" then None
      else Some(Pair(TrimSpace(line[..i]), DecodeValue(TrimSpace(line[i + 1..]))))
  }

  function ParsedLines(lines: seq<string>): map<string, string> {
    if |lines| == 0 then map[]
    else
      var rest, pair := ParsedLines(lines[..|lines| - 1]), ParseLine(lines[|lines| - 1]);
      if pair.Some? then rest[pair.value.name := pair.value.value] else rest
  }

  predicate AllFit(lines: seq<string>) {
    forall i :: 0 <= i < |lines| ==> Fits(lines[i])
  }

  ghost function Parsed(content: string): Result<map<string, string>> {
    if AllFit(ScannedLines(content)) then Ok(ParsedLines(ScannedLines(content))) else LineTooLong
  }

  lemma ParsedLinesAppend(lines: seq<string>, line: string)
    ensures ParsedLines(lines + [line])
         == if ParseLine(line).Some?
            then ParsedLines(lines)[ParseLine(line).value.name := ParseLine(line).value.value]
            else ParsedLines(lines)
  {
    assert (lines + [line])[..|lines|] == lines;
  }

  /** What parseHeatParams makes of one line. */
  method ReadLine(raw: string) returns (pair: Option<Pair>)
    ensures pair == ParseLine(raw)
  {
    var line := TrimSpace(raw);
    if line == "" || line[0] == '#' {
      return None;
    }
    var cut := FirstIndex(line, '=');
    if cut == |line| {
      return None;
    }
    var key, value := TrimSpace(line[..cut]), TrimSpace(line[cut + 1..]);
    if key == "" {
      return None;
    }
    return Some(Pair(key, DecodeValue(value)));
  }

  /** The scan loop of parseHeatParams: the last line that sets a key wins, lines that set none are
      skipped, and one oversized line fails the file. */
  method ParseHeatParams(content: string) returns (r: Result<map<string, string>>)
    ensures r == Parsed(content)
  {
    var raw: map<string, string> := map[];
    var lines := ScannedLines(content);
    for i := 0 to |lines|
      invariant AllFit(lines[..i])
      invariant raw == ParsedLines(lines[..i])
    {
      assert lines[..i + 1] == lines[..i] + [lines[i]];
      ParsedLinesAppend(lines[..i], lines[i]);
      if !Fits(lines[i]) {
        return LineTooLong;
      }
      var pair := ReadLine(lines[i]);
      if pair.Some? {
        raw := raw[pair.value.name := pair.value.value];
      }
    }
    assert lines[..|lines|] == lines;
    return Ok(raw);
  }

  // ---------------------------------------------------------------- what a line may look like

  /** A line sets something exactly when, spaces aside, it is no comment and has an equals sign behind
      a first character. */
  lemma SetsIff(raw: string)
    ensures ParseLine(raw).Some?
       <==> TrimSpace(raw) != "" && TrimSpace(raw)[0] != '#' && TrimSpace(raw)[0] != '=' && '=' in TrimSpace(raw)
  {
    var line := TrimSpace(raw);
    var i := FirstIndex(line, '=');
    TrimSpaceShape(raw);
    if line != "" && 0 < i < |line| {
      TrimSpaceKeeps(line[..i]);
    }
  }

  /** Trimming leaves something of a text that does not start with white space. */
  lemma TrimSpaceKeeps(s: string)
    requires s != "" && !IsSpace(s[0])
    ensures TrimSpace(s) != ""
  {
    TrimLeftShape(s);
    TrimRightKeeps(s);
  }

  lemma {:induction false} TrimRightKeeps(s: string)
    requires s != "" && !IsSpace(s[0])
    ensures TrimSpaceRight(s) != ""
  {
    if IsSpace(s[|s| - 1]) {
      TrimRightKeeps(s[..|s| - 1]);
    }
  }

  lemma ValueOfLine(name: string, value: string)
    requires IsKey(name) && IsTrimmed(value)
    ensures ParseLine(name + "=" + value) == Some(Pair(name, DecodeValue(value)))
  {
    var line := name + ['='] + value;
    assert line == name + "=" + value;
    TrimSpaceOfTrimmed(name);
    TrimSpaceOfTrimmed(value);
    assert value != "" ==> line[|line| - 1] == value[|value| - 1];
    TrimSpaceOfTrimmed(line);
    FirstIndexAt(name, value, '=');
    assert line[..|name|] == name && line[|name| + 1..] == value;
  }

  /** A value that does not both start and end with one kind of quotation mark is taken as it is. */
  lemma BareValue(name: string, value: string)
    requires IsKey(name) && IsTrimmed(value)
    requires |value| <= 1 || value[0] != value[|value| - 1] || value[0] !in "\"'"
    ensures ParseLine(name + "=" + value) == Some(Pair(name, value))
  {
    ValueOfLine(name, value);
  }

  /** Apostrophes are taken off and nothing between them is changed. */
  lemma ApostropheValue(name: string, value: string)
    requires IsKey(name)
    ensures ParseLine(name + "='" + value + "'") == Some(Pair(name, value))
  {
    var quoted := "'" + value + "'";
    assert name + "='" + value + "'" == name + "=" + quoted;
    assert quoted[1..|quoted| - 1] == value;
    ValueOfLine(name, quoted);
  }

  /** Between double quotes a value that does not unquote is kept, marks included. */
  lemma MalformedValue(name: string, value: string)
    requires IsKey(name) && Unquote("\"" + value + "\"").None?
    ensures ParseLine(name + "=\"" + value + "\"") == Some(Pair(name, "\"" + value + "\""))
  {
    var quoted := "\"" + value + "\"";
    assert name + "=\"" + value + "\"" == name + "=" + quoted;
    ValueOfLine(name, quoted);
  }

  /** A later setting of a key replaces an earlier one and leaves the other keys alone. */
  lemma LaterLineWins(lines: seq<string>, name: string, value: string)
    requires IsKey(name)
    ensures var before, after := ParsedLines(lines), ParsedLines(lines + [name + "='" + value + "'"]);
            && after.Keys == before.Keys + {name} && after[name] == value
            && forall k :: k in before && k != name ==> after[k] == before[k]
  {
    ApostropheValue(name, value);
    ParsedLinesAppend(lines, name + "='" + value + "'");
  }

  lemma {:induction false} AsciiLength(s: string)
    requires forall c :: c in s ==> c < '\U{80}'
    ensures ByteLength(s) == |s|
  {
    if s != "" {
      assert s[0] in s && forall c :: c in s[1..] ==> c in s;
      AsciiLength(s[1..]);
    }
  }

  /** Four mebibytes of plain text are too long for a line, one byte less is not. */
  lemma AsciiFits(s: string)
    requires forall c :: c in s ==> c < '\U{80}'
    ensures Fits(s) <==> |s| < 4_194_304
  {
    AsciiLength(s);
  }

  // ---------------------------------------------------------------- printing

  function LineOf(pair: Pair, printable: char -> bool): string {
    pair.name + "=" + Quoted(pair.value, printable)
  }

  function RenderPairs(pairs: seq<Pair>, printable: char -> bool): string {
    if |pairs| == 0 then ""
    else RenderPairs(pairs[..|pairs| - 1], printable) + LineOf(pairs[|pairs| - 1], printable) + "\n"
  }

  /** The builder loop of HeatParams. */
  method Render(pairs: seq<Pair>, printable: char -> bool) returns (content: string)
    ensures content == RenderPairs(pairs, printable)
  {
    content := "";
    for i := 0 to |pairs|
      invariant content == RenderPairs(pairs[..i], printable)
    {
      assert pairs[..i + 1][..i] == pairs[..i];
      content := content + LineOf(pairs[i], printable) + "\n";
    }
    assert pairs[..|pairs|] == pairs;
  }

  // ---------------------------------------------------------------- the round trip

  /** Keys that a line can carry. */
  predicate IsKey(name: string) {
    name != "" && IsTrimmed(name) && name[0] != '#' && '=' !in name && '\n' !in name
  }

  predicate AreKeys(pairs: seq<Pair>) {
    forall i :: 0 <= i < |pairs| ==> IsKey(pairs[i].name)
  }

  /** Every key with its last value. */
  function LastValues(pairs: seq<Pair>): map<string, string> {
    if |pairs| == 0 then map[]
    else LastValues(pairs[..|pairs| - 1])[pairs[|pairs| - 1].name := pairs[|pairs| - 1].value]
  }

  function LinesOf(pairs: seq<Pair>, printable: char -> bool): seq<string> {
    if |pairs| == 0 then [] else LinesOf(pairs[..|pairs| - 1], printable) + [LineOf(pairs[|pairs| - 1], printable)]
  }

  lemma DecodeQuoted(value: string, printable: char -> bool)
    ensures DecodeValue(Quoted(value, printable)) == value
    ensures TrimSpace(Quoted(value, printable)) == Quoted(value, printable)
  {
    UnquoteOfQuoted(value, printable);
    TrimSpaceOfTrimmed(Quoted(value, printable));
  }

  lemma ParseRenderedLine(pair: Pair, printable: char -> bool)
    requires IsKey(pair.name)
    ensures ParseLine(LineOf(pair, printable)) == Some(pair)
    ensures '\n' !in LineOf(pair, printable)
  {
    var line, quoted := LineOf(pair, printable), Quoted(pair.value, printable);
    assert line == pair.name + ['='] + quoted;
    assert line[0] == pair.name[0] && line[|line| - 1] == '"';
    TrimSpaceOfTrimmed(line);
    FirstIndexAt(pair.name, quoted, '=');
    assert line[..|pair.name|] == pair.name && line[|pair.name| + 1..] == quoted;
    TrimSpaceOfTrimmed(pair.name);
    DecodeQuoted(pair.value, printable);
    EscapedHasNoNewline(pair.value, printable);
  }

  lemma {:induction false} LinesOfRendered(pairs: seq<Pair>, printable: char -> bool)
    requires AreKeys(pairs)
    ensures Split(RenderPairs(pairs, printable), '\n') == LinesOf(pairs, printable) + [""]
    ensures ScannedLines(RenderPairs(pairs, printable)) == LinesOf(pairs, printable)
  {
    if |pairs| > 0 {
      var front, last := pairs[..|pairs| - 1], pairs[|pairs| - 1];
      var text, line := RenderPairs(front, printable), LineOf(last, printable);
      LinesOfRendered(front, printable);
      ParseRenderedLine(last, printable);
      AppendLine(text, LinesOf(front, printable), line);
      assert text + line + "\n" == text + (line + "\n");
    }
  }

  /** Appending a line to a text whose last line is finished. */
  lemma AppendLine(text: string, lines: seq<string>, line: string)
    requires Split(text, '\n') == lines + [""] && '\n' !in line
    ensures Split(text + (line + "\n"), '\n') == (lines + [line]) + [""]
  {
    SplitHead(line, "", '\n');
    assert line + ['\n'] + "" == line + "\n";
    if text == "" {
      assert lines == [];
      assert text + (line + "\n") == line + "\n";
    } else {
      JoinOfSplit(text, '\n');
      assert lines != [];
      JoinConcat(lines, [""], "\n");
      var front := Join(lines, "\n");
      assert text == front + "\n" + "";
      SplitConcat(front, "", '\n');
      assert Split(front, '\n') == lines by {
        assert text == front + ['\n'] + "";
        assert (Split(front, '\n') + [""])[..|lines|] == Split(front, '\n');
        assert (lines + [""])[..|lines|] == lines;
      }
      assert text + (line + "\n") == front + ['\n'] + (line + "\n");
      SplitConcat(front, line + "\n", '\n');
      assert lines + ([line] + [""]) == (lines + [line]) + [""];
    }
  }

  lemma {:induction false} ParsedLinesOfKeys(pairs: seq<Pair>, printable: char -> bool)
    requires AreKeys(pairs)
    ensures ParsedLines(LinesOf(pairs, printable)) == LastValues(pairs)
  {
    if |pairs| > 0 {
      var front := pairs[..|pairs| - 1];
      ParsedLinesOfKeys(front, printable);
      ParseRenderedLine(pairs[|pairs| - 1], printable);
      assert LinesOf(pairs, printable)[..|LinesOf(pairs, printable)| - 1] == LinesOf(front, printable);
    }
  }

  /** Whatever a line sets has a key a line can carry. */
  lemma ParsedKey(raw: string)
    requires '\n' !in raw && ParseLine(raw).Some?
    ensures IsKey(ParseLine(raw).value.name)
  {
    var line := TrimSpace(raw);
    var i := FirstIndex(line, '=');
    TrimSpaceShape(raw);
    TrimSpaceShape(line[..i]);
    FirstStays(raw, i);
    forall c | c in ParseLine(raw).value.name ensures c != '\n' && c != '=' {
      assert c in line[..i];
      var j :| 0 <= j < i && line[j] == c;
      assert c in raw;
    }
  }

  lemma {:induction false} TrimRightShape(s: string)
    ensures TrimSpaceRight(s) <= s
    ensures TrimSpaceRight(s) == "" || !IsSpace(TrimSpaceRight(s)[|TrimSpaceRight(s)| - 1])
  {
    if s != "" && IsSpace(s[|s| - 1]) {
      TrimRightShape(s[..|s| - 1]);
    }
  }

  lemma {:induction false} TrimLeftShape(s: string)
    ensures forall c :: c in TrimSpaceLeft(s) ==> c in s
    ensures TrimSpaceLeft(s) == "" || !IsSpace(TrimSpaceLeft(s)[0])
    ensures s != "" && !IsSpace(s[0]) ==> TrimSpaceLeft(s) == s
  {
    if s != "" && IsSpace(s[0]) {
      TrimLeftShape(s[1..]);
    }
  }

  lemma TrimSpaceShape(s: string)
    ensures IsTrimmed(TrimSpace(s))
    ensures forall c :: c in TrimSpace(s) ==> c in s
    ensures TrimSpace(s) != "" && !IsSpace(s[0]) ==> TrimSpace(s)[0] == s[0]
  {
    TrimLeftShape(s);
    TrimRightShape(TrimSpaceLeft(s));
  }

  /** The key starts with the line's first character. */
  lemma FirstStays(raw: string, i: nat)
    requires i <= |TrimSpace(raw)| && TrimSpace(TrimSpace(raw)[..i]) != ""
    ensures TrimSpace(TrimSpace(raw)[..i])[0] == TrimSpace(raw)[0]
  {
    TrimSpaceShape(raw);
    TrimSpaceShape(TrimSpace(raw)[..i]);
  }

  lemma {:induction false} ParsedKeys(lines: seq<string>)
    requires NoneContains(lines, '\n')
    ensures forall k :: k in ParsedLines(lines) ==> IsKey(k)
  {
    if |lines| > 0 {
      ParsedKeys(lines[..|lines| - 1]);
      if ParseLine(lines[|lines| - 1]).Some? {
        ParsedKey(lines[|lines| - 1]);
      }
    }
  }

  lemma {:induction false} LastValuesKeys(pairs: seq<Pair>)
    ensures forall i :: 0 <= i < |pairs| ==> pairs[i].name in LastValues(pairs)
  {
    if |pairs| > 0 {
      LastValuesKeys(pairs[..|pairs| - 1]);
    }
  }

  /** The rendered file is read back as every key with its last value exactly when all keys are ones
      a line can carry and no rendered line reaches the limit. Values may hold anything. */
  lemma RoundTripIff(pairs: seq<Pair>, printable: char -> bool)
    ensures Parsed(RenderPairs(pairs, printable)) == Ok(LastValues(pairs))
       <==> AreKeys(pairs) && AllFit(LinesOf(pairs, printable))
  {
    var content := RenderPairs(pairs, printable);
    if AreKeys(pairs) {
      LinesOfRendered(pairs, printable);
      ParsedLinesOfKeys(pairs, printable);
    }
    if Parsed(content) == Ok(LastValues(pairs)) {
      SplitPartsClean(content, '\n');
      ParsedKeys(ScannedLines(content));
      LastValuesKeys(pairs);
    }
  }

  /** A line that sets nothing costs nothing: the file reads the same without it. */
  lemma {:induction false} StrayLineIgnored(before: seq<string>, stray: string, after: seq<string>)
    requires ParseLine(stray).None?
    ensures ParsedLines(before + [stray] + after) == ParsedLines(before + after)
  {
    if |after| == 0 {
      ParsedLinesAppend(before, stray);
      assert before + [stray] + after == before + [stray] && before + after == before;
    } else {
      var front, last := after[..|after| - 1], after[|after| - 1];
      StrayLineIgnored(before, stray, front);
      assert before + [stray] + after == (before + [stray] + front) + [last];
      assert before + after == (before + front) + [last];
      ParsedLinesAppend(before + [stray] + front, last);
      ParsedLinesAppend(before + front, last);
    }
  }
}
