/** What export upserts guarantee: effect, frame, convergence, and what the provider observes. */
module ExportConvergence {
  import opened Text
  import opened ShellQuote
  import opened HostFiles

  /** What an assignment's left side may be without confusing one variable's lines with another's. */
  predicate IsName(varName: string) {
    '=' !in varName && '\n' !in varName && '\r' !in varName
  }

  /** No line of the file ends in a carriage return once the CRLF line ends are replaced. */
  predicate IsClean(f: File) {
    AreClean(Lines(TextOf(f)))
  }

  // ---------------------------------------------------------------- text and lines

  lemma LinesOfRender(lines: seq<string>)
    requires AreClean(lines)
    ensures Lines(Render(lines)) == Settled(lines)
    ensures Render(lines) == "" <==> DropBlanks(lines) == []
  {
    var kept := DropBlanks(lines);
    DropBlanksShape(lines);
    if kept != [] {
      JoinEnd(kept);
      var content := Join(kept, "\n");
      TrimNewlinesOfTrimmed(content);
      JoinNoCRLF(kept);
      UnCRLFOfClean(content + "\n");
      SplitOfJoin(kept, '\n');
    }
  }

  lemma {:induction false} SplitPartsWithout(s: string, c: char, other: char)
    requires other !in s
    ensures NoneContains(Split(s, c), other)
  {
    if s != "" {
      SplitPartsWithout(s[1..], c, other);
    }
  }

  /** The physical lines of a rendered assignment. */
  function Added(varName: string, value: string): seq<string> {
    if value == "" then [] else Split(Rendered(varName, value), '\n')
  }

  lemma AddedShape(varName: string, value: string)
    requires IsName(varName) && '\r' !in value
    ensures AreClean(Added(varName, value))
    ensures value != "" ==> Added(varName, value) != [] && Added(varName, value)[|Added(varName, value)| - 1] != ""
    ensures '\n' !in value && value != "" ==> Added(varName, value) == [Rendered(varName, value)]
  {
    var r := Rendered(varName, value);
    RenderedShape(varName, value);
    SplitPartsClean(r, '\n');
    assert '\r' !in r;
    SplitPartsWithout(r, '\n', '\r');
    SplitEnd(r, '\n');
    if '\n' !in value {
      assert '\n' !in r;
      SplitOfClean(r, '\n');
    }
  }

  lemma UpsertedIsClean(lines: seq<string>, varName: string, value: string)
    requires AreClean(lines) && IsName(varName) && '\r' !in value
    ensures AreClean(Upserted(lines, varName, value))
  {
    AddedShape(varName, value);
    SelectMembers(lines, line => !Matches(line, varName));
    var others := Others(lines, varName);
    forall i | 0 <= i < |others| ensures '\n' !in others[i] && !EndsInCR(others[i]) {
      assert others[i] in others;
    }
  }

  lemma SameTextIff(content: string, lines: seq<string>)
    requires NoneContains(lines, '\n') && lines != [] && lines[|lines| - 1] != ""
    requires '\n' !in lines[|lines| - 1]
    ensures content + "\n" == TrimNewlines(Join(lines, "\n")) + "\n" <==> Split(content, '\n') == lines
  {
    JoinEnd(lines);
    TrimNewlinesOfTrimmed(Join(lines, "\n"));
    SplitOfJoin(lines, '\n');
    JoinOfSplit(content, '\n');
    var joined := Join(lines, "\n");
    assert (content + "\n")[..|content|] == content && (joined + "\n")[..|joined|] == joined;
  }

  /** No change is reported exactly when the file already has the lines an upsert would leave. */
  lemma NoChangeIff(f: File, varName: string, value: string)
    requires IsClean(f) && IsName(varName) && '\r' !in value
    ensures ChangeOf(f, varName, value).NoChange?
       <==> DropBlanks(Upserted(Lines(TextOf(f)), varName, value)) == if TextOf(f) == "" then [] else Lines(TextOf(f))
  {
    var upserted := Upserted(Lines(TextOf(f)), varName, value);
    var kept := DropBlanks(upserted);
    UpsertedIsClean(Lines(TextOf(f)), varName, value);
    LinesOfRender(upserted);
    DropBlanksShape(upserted);
    if TextOf(f) != "" && kept != [] {
      assert kept[|kept| - 1] == upserted[|kept| - 1];
      RenderIsTextIff(upserted, NormalizeLines(TextOf(f)));
    }
  }

  lemma RenderIsTextIff(lines: seq<string>, content: string)
    requires AreClean(lines) && DropBlanks(lines) != []
    ensures content + "\n" == Render(lines) <==> DropBlanks(lines) == Split(content, '\n')
  {
    var kept := DropBlanks(lines);
    DropBlanksShape(lines);
    SameTextIff(content, kept);
    JoinEnd(kept);
    TrimNewlinesOfTrimmed(Join(kept, "\n"));
  }

  /** Whether or not it had to write, an upsert leaves exactly these lines. */
  lemma AfterLines(f: File, varName: string, value: string, mode: nat)
    requires IsClean(f) && IsName(varName) && '\r' !in value
    ensures var f' := AfterUpsert(f, varName, value, mode);
            Lines(TextOf(f')) == Settled(Upserted(Lines(TextOf(f)), varName, value)) && IsClean(f')
  {
    var upserted := Upserted(Lines(TextOf(f)), varName, value);
    UpsertedIsClean(Lines(TextOf(f)), varName, value);
    LinesOfRender(upserted);
    NoChangeIff(f, varName, value);
    DropBlanksShape(upserted);
  }

  // ---------------------------------------------------------------- convergence

  /** Every line the rendered assignment spans is recognised as the variable's on the next run. */
  predicate Recognised(varName: string, value: string) {
    forall line :: line in Added(varName, value) ==> Matches(line, varName)
  }

  lemma BlankNeverMatches(varName: string)
    ensures !Matches("", varName)
  {
  }

  lemma RecognisedIff(varName: string, value: string)
    ensures Others(Added(varName, value), varName) == [] <==> Recognised(varName, value)
  {
    var added := Added(varName, value);
    SelectMembers(added, line => !Matches(line, varName));
    var others := Others(added, varName);
    assert others != [] ==> others[0] in others;
  }

  lemma OthersOfUpserted(lines: seq<string>, varName: string, value: string)
    ensures Others(Upserted(lines, varName, value), varName)
         == Others(lines, varName) + Others(Added(varName, value), varName)
  {
    var others := Others(lines, varName);
    SelectConcat(others, Added(varName, value), line => !Matches(line, varName));
    SelectMembers(lines, line => !Matches(line, varName));
    SelectAll(others, line => !Matches(line, varName));
    assert Upserted(lines, varName, value) == others + Added(varName, value);
  }

  /** The value's lines are appended again to whatever of them was not recognised. */
  lemma AgainIff(others: seq<string>, left: seq<string>, added: seq<string>)
    ensures (others + left) + added == others + added <==> left == []
  {
    if left == [] {
      assert others + left == others;
    } else {
      assert |(others + left) + added| > |others + added|;
    }
  }

  lemma ValueConvergesIff(f: File, varName: string, value: string, mode: nat)
    requires IsClean(f) && IsName(varName) && '\r' !in value && value != ""
    ensures ChangeOf(AfterUpsert(f, varName, value, mode), varName, value).NoChange?
       <==> Others(Added(varName, value), varName) == []
  {
    var f' := AfterUpsert(f, varName, value, mode);
    var lines, added := Lines(TextOf(f)), Added(varName, value);
    var others, left := Others(lines, varName), Others(added, varName);
    AddedShape(varName, value);
    AfterLines(f, varName, value, mode);
    DropBlanksNone(others, added);
    assert Upserted(lines, varName, value) == others + added;
    assert Lines(TextOf(f')) == others + added;
    assert TextOf(f') != "" by {
      assert Lines("") == [""];
      assert (others + added)[|others + added| - 1] == added[|added| - 1];
    }
    OthersOfUpserted(lines, varName, value);
    NoChangeIff(f', varName, value);
    DropBlanksNone(others + left, added);
    AgainIff(others, left, added);
  }

  /** A second identical upsert reports no change exactly when there is no value or every line of
      the rendered assignment starts like an assignment of the variable. One-line values always
      converge; a value with a newline converges only if each further line repeats the assignment. */
  lemma UpsertConvergesIff(f: File, varName: string, value: string, mode: nat)
    requires IsClean(f) && IsName(varName) && '\r' !in value
    ensures ChangeOf(AfterUpsert(f, varName, value, mode), varName, value).NoChange?
       <==> value == "" || Recognised(varName, value)
  {
    if value == "" {
      UpsertNothingTwice(f, varName, mode);
    } else {
      ValueConvergesIff(f, varName, value, mode);
      RecognisedIff(varName, value);
    }
  }

  lemma UpsertNothingTwice(f: File, varName: string, mode: nat)
    requires IsClean(f) && IsName(varName)
    ensures ChangeOf(AfterUpsert(f, varName, "", mode), varName, "").NoChange?
  {
    if !ChangeOf(f, varName, "").NoChange? {
      var f' := AfterUpsert(f, varName, "", mode);
      var upserted := Upserted(Lines(TextOf(f)), varName, "");
      AfterLines(f, varName, "", mode);
      NoChangeIff(f', varName, "");
      UpsertedIsClean(Lines(TextOf(f)), varName, "");
      LinesOfRender(upserted);
      DropBlanksShape(upserted);
      SelectMembers(Lines(TextOf(f)), line => !Matches(line, varName));
      BlankNeverMatches(varName);
      forall x | x in Settled(upserted) ensures !Matches(x, varName) {
        if x != "" {
          assert x in DropBlanks(upserted);
          assert x in upserted;
        }
      }
      SelectAll(Settled(upserted), line => !Matches(line, varName));
      assert Upserted(Settled(upserted), varName, "") == Settled(upserted);
    }
  }

  lemma QuoteNewline(value: string)
    ensures Quote("\n" + value) == "\n" + Quote(value)
  {
    assert ("\n" + value)[1..] == value;
  }

  lemma RenderedAcrossLines(varName: string, first: string, last: string)
    ensures Rendered(varName, first + "\n" + last)
         == ("export " + varName + "='" + Quote(first)) + ['\n'] + (Quote(last) + "'")
  {
    QuoteConcat(first, "\n" + last);
    QuoteNewline(last);
    SeqAssoc(first, "\n", last);
  }

  /** The last line of a rendered value that spans lines. */
  lemma ClosingLine(varName: string, first: string, last: string)
    requires '\n' !in last
    ensures Quote(last) + "'" in Added(varName, first + "\n" + last)
  {
    RenderedAcrossLines(varName, first, last);
    SplitConcat("export " + varName + "='" + Quote(first), Quote(last) + "'", '\n');
    QuoteKeeps(last, '\n');
    SplitOfClean(Quote(last) + "'", '\n');
  }

  /** Such values are easy to come by: no value whose last line starts with anything but the two
      keywords' first letters ever converges. */
  lemma MultiLineNeverConverges(f: File, varName: string, first: string, last: string, mode: nat)
    requires IsClean(f) && IsName(varName) && '\r' !in first && '\r' !in last
    requires '\n' !in last && (last == "" || last[0] !in "ed")
    ensures var value := first + "\n" + last;
            !ChangeOf(AfterUpsert(f, varName, value, mode), varName, value).NoChange?
  {
    ClosingLine(varName, first, last);
    ClosingNeverMatches(varName, last);
    assert !Recognised(varName, first + "\n" + last);
    UpsertConvergesIff(f, varName, first + "\n" + last, mode);
  }

  lemma ClosingNeverMatches(varName: string, last: string)
    requires last == "" || last[0] !in "ed"
    ensures !Matches(Quote(last) + "'", varName)
  {
    var closing := Quote(last) + "'";
    FirstOfMatch(closing, varName);
    assert closing[0] == '\'' || closing[0] == last[0];
  }

  lemma FirstOfMatch(line: string, varName: string)
    ensures Matches(line, varName) ==> line != "" && line[0] in "ed"
  {
    assert ("export " + varName + "=")[0] == 'e' && ("declare -x " + varName + "=")[0] == 'd';
  }

  // ---------------------------------------------------------------- effect and frame

  lemma SingleLineIsRecognised(varName: string, value: string)
    requires IsName(varName) && '\r' !in value && '\n' !in value
    ensures Recognised(varName, value)
  {
    AddedShape(varName, value);
    RenderedShape(varName, value);
  }

  /** After an upsert the variable's lines are those of the rendered assignment, and of the other
      lines only blank ones may have gone. */
  lemma UpsertEffect(f: File, varName: string, value: string, mode: nat)
    requires IsClean(f) && IsName(varName) && '\r' !in value
    ensures var before, after := Lines(TextOf(f)), Lines(TextOf(AfterUpsert(f, varName, value, mode)));
            && Matching(after, varName) == Matching(Added(varName, value), varName)
            && NonBlank(Others(after, varName))
            == NonBlank(Others(before, varName)) + NonBlank(Others(Added(varName, value), varName))
  {
    var before := Lines(TextOf(f));
    var upserted := Upserted(before, varName, value);
    var others, added := Others(before, varName), Added(varName, value);
    var matches, nonBlank := line => Matches(line, varName), line => line != "";
    AfterLines(f, varName, value, mode);
    BlankNeverMatches(varName);
    assert upserted == others + added;
    SelectSettled(upserted, matches);
    SelectConcat(others, added, matches);
    SelectMembers(before, line => !Matches(line, varName));
    SelectNone(others, matches);
    NonBlankOthersOfSettled(upserted, varName);
    OthersOfUpserted(before, varName, value);
    SelectConcat(others, Others(added, varName), nonBlank);
  }

  /** Two selections in a row are one selection by both predicates, in either order. */
  lemma {:induction false} SelectTwice(lines: seq<string>, p: string -> bool, q: string -> bool)
    ensures Select(Select(lines, p), q) == Select(lines, line => p(line) && q(line))
  {
    if |lines| > 0 {
      var front, last := lines[..|lines| - 1], lines[|lines| - 1];
      SelectTwice(front, p, q);
      if p(last) {
        SelectStep(Select(front, p), last, q);
      } else {
        assert Select(lines, p) == Select(front, p);
      }
    }
  }

  lemma NonBlankOthersOfSettled(lines: seq<string>, varName: string)
    ensures NonBlank(Others(Settled(lines), varName)) == NonBlank(Others(lines, varName))
  {
    var other, nonBlank := (line: string) => !Matches(line, varName), (line: string) => line != "";
    SelectTwice(lines, other, nonBlank);
    SelectTwice(Settled(lines), other, nonBlank);
    SelectSettled(lines, line => other(line) && nonBlank(line));
  }

  /** For one-line values: exactly one line is left of the variable (none without a value), and all
      other lines but blank ones survive in order. */
  lemma SingleLineUpsert(f: File, varName: string, value: string, mode: nat)
    requires IsClean(f) && IsName(varName) && '\r' !in value && '\n' !in value
    ensures var before, after := Lines(TextOf(f)), Lines(TextOf(AfterUpsert(f, varName, value, mode)));
            && Matching(after, varName) == (if value == "" then [] else [Rendered(varName, value)])
            && NonBlank(Others(after, varName)) == NonBlank(Others(before, varName))
  {
    UpsertEffect(f, varName, value, mode);
    AddedShape(varName, value);
    SingleLineIsRecognised(varName, value);
    RecognisedIff(varName, value);
    SelectAll(Added(varName, value), line => Matches(line, varName));
  }

  /** The same line by line: of the lines that export the variable exactly the rendered one is in
      the file, if there is a value. */
  lemma ExportLineIff(f: File, varName: string, value: string, mode: nat, line: string)
    requires IsClean(f) && IsName(varName) && '\r' !in value && '\n' !in value
    requires "export " + varName + "=" <= line || "declare -x " + varName + "=" <= line
    ensures line in Lines(TextOf(AfterUpsert(f, varName, value, mode)))
       <==> value != "" && line == "export " + varName + "='" + Quote(value) + "'"
  {
    var after := Lines(TextOf(AfterUpsert(f, varName, value, mode)));
    SingleLineUpsert(f, varName, value, mode);
    SelectMembers(after, l => Matches(l, varName));
    assert Matches(line, varName);
    assert line in after <==> line in Matching(after, varName);
  }

  /** Every other line but a blank one is in the file as often as before. */
  lemma OtherLineCount(f: File, varName: string, value: string, mode: nat, line: string)
    requires IsClean(f) && IsName(varName) && '\r' !in value && '\n' !in value
    requires line != "" && !("export " + varName + "=" <= line) && !("declare -x " + varName + "=" <= line)
    ensures multiset(Lines(TextOf(AfterUpsert(f, varName, value, mode))))[line] == multiset(Lines(TextOf(f)))[line]
  {
    SingleLineUpsert(f, varName, value, mode);
    CountKept(Lines(TextOf(f)), Lines(TextOf(AfterUpsert(f, varName, value, mode))), varName, line);
  }

  lemma CountKept(before: seq<string>, after: seq<string>, varName: string, line: string)
    requires line != "" && !("export " + varName + "=" <= line) && !("declare -x " + varName + "=" <= line)
    requires NonBlank(Others(after, varName)) == NonBlank(Others(before, varName))
    ensures multiset(after)[line] == multiset(before)[line]
  {
    NonBlankOtherCount(before, varName, line);
    NonBlankOtherCount(after, varName, line);
  }

  lemma NonBlankOtherCount(lines: seq<string>, varName: string, line: string)
    requires line != ""
    ensures multiset(NonBlank(Others(lines, varName)))[line]
         == if Matches(line, varName) then 0 else multiset(lines)[line]
  {
    SelectCounts(lines, l => !Matches(l, varName));
    SelectCounts(Others(lines, varName), l => l != "");
  }

  /** An upsert or a required line either leaves the file alone, mode included, or writes it with the
      mode asked for; the text of a file it leaves alone needed no change. */
  lemma WrittenMode(f: File, varName: string, value: string, mode: nat)
    ensures var f' := AfterUpsert(f, varName, value, mode);
            f' == f || (f'.File? && f'.mode == mode && NormalizeEmpty(TextOf(f)) != f'.text)
    ensures var f' := AfterEnsure(f, value, mode);
            f' == f || (f'.File? && f'.mode == mode && |f'.text| > |TextOf(f)|)
    ensures var f' := AfterEnsure(f, value, mode);
            f' == f <==> f.File? && value in Split(TrimNewlines(f.text), '\n')
  {
  }

  lemma {:induction false} NameBeforeEquals(name: string, other: string, tail: string)
    requires '=' !in name && '=' !in other && name + "=" <= other + "=" + tail
    ensures name == other
  {
    var s := other + "=" + tail;
    assert s[|other|] == '=' && (name + "=")[|name|] == '=';
    assert forall i :: 0 <= i < |name| ==> (name + "=")[i] == name[i] && s[i] == name[i];
    assert forall i :: 0 <= i < |other| ==> s[i] == other[i];
    assert |name| == |other|;
    assert name == s[..|name|];
  }

  /** No line is an assignment of two variables. */
  lemma MatchesOne(line: string, varName: string, other: string)
    requires IsName(varName) && IsName(other) && Matches(line, varName) && Matches(line, other)
    ensures varName == other
  {
    var e, d := "export ", "declare -x ";
    assert e[0] == 'e' && d[0] == 'd';
    var front := if e + varName + "=" <= line then e else d;
    assert front + varName + "=" <= line;
    assert line[0] == front[0];
    assert front + other + "=" <= line by {
      assert (e + other + "=")[0] == 'e' && (d + other + "=")[0] == 'd';
    }
    var rest := line[|front|..];
    assert line == front + rest;
    assert varName + "=" <= rest by {
      assert front + varName + "=" == front + (varName + "=");
      assert (front + (varName + "="))[|front|..] == varName + "=";
    }
    assert other + "=" <= rest by {
      assert front + other + "=" == front + (other + "=");
      assert (front + (other + "="))[|front|..] == other + "=";
    }
    assert rest == other + "=" + rest[|other| + 1..];
    NameBeforeEquals(varName, other, rest[|other| + 1..]);
  }

  /** An upsert leaves the lines of every other variable as they were. */
  lemma OtherVariableKept(f: File, varName: string, value: string, mode: nat, other: string)
    requires IsClean(f) && IsName(varName) && '\r' !in value && '\n' !in value
    requires IsName(other) && other != varName
    ensures Matching(Lines(TextOf(AfterUpsert(f, varName, value, mode))), other) == Matching(Lines(TextOf(f)), other)
  {
    var before := Lines(TextOf(f));
    var others, added := Others(before, varName), Added(varName, value);
    var mine, matches := (line: string) => !Matches(line, varName), (line: string) => Matches(line, other);
    AfterLines(f, varName, value, mode);
    BlankNeverMatches(other);
    assert Upserted(before, varName, value) == others + added;
    SelectSettled(others + added, matches);
    SelectConcat(others, added, matches);
    forall x | x in before && Matches(x, other) ensures !Matches(x, varName) {
      if Matches(x, varName) {
        MatchesOne(x, varName, other);
      }
    }
    SelectThrough(before, mine, matches);
    AddedNeverMatchesOther(varName, value, other);
    SelectNone(added, matches);
  }

  lemma AddedNeverMatchesOther(varName: string, value: string, other: string)
    requires IsName(varName) && '\r' !in value && '\n' !in value
    requires IsName(other) && other != varName
    ensures forall x :: x in Added(varName, value) ==> !Matches(x, other)
  {
    AddedShape(varName, value);
    RenderedShape(varName, value);
    if Matches(Rendered(varName, value), other) {
      MatchesOne(Rendered(varName, value), varName, other);
    }
  }

  // ---------------------------------------------------------------- any number of upserts

  datatype Upsert = Upsert(varName: string, value: string, mode: nat)

  predicate AreSingleLine(upserts: seq<Upsert>) {
    forall i :: 0 <= i < |upserts| ==>
      IsName(upserts[i].varName) && '\r' !in upserts[i].value && '\n' !in upserts[i].value
  }

  function AfterAll(f: File, upserts: seq<Upsert>): File {
    if |upserts| == 0 then f
    else
      var last := upserts[|upserts| - 1];
      AfterUpsert(AfterAll(f, upserts[..|upserts| - 1]), last.varName, last.value, last.mode)
  }

  /** The last value an upsert gave the variable, if one did. */
  function LastValue(upserts: seq<Upsert>, varName: string): Option<string> {
    if |upserts| == 0 then None
    else
      var last := upserts[|upserts| - 1];
      if last.varName == varName then Some(last.value) else LastValue(upserts[..|upserts| - 1], varName)
  }

  /** After any sequence of upserts each variable has its last value, on one line or, when that is
      empty, on none; a variable no upsert named keeps the lines it had. */
  lemma {:induction false} LastUpsertWins(f: File, upserts: seq<Upsert>, varName: string)
    requires IsClean(f) && AreSingleLine(upserts) && IsName(varName)
    ensures IsClean(AfterAll(f, upserts))
    ensures Matching(Lines(TextOf(AfterAll(f, upserts))), varName)
         == match LastValue(upserts, varName)
            case None => Matching(Lines(TextOf(f)), varName)
            case Some(value) => if value == "" then [] else [Rendered(varName, value)]
  {
    if |upserts| > 0 {
      var front, last := upserts[..|upserts| - 1], upserts[|upserts| - 1];
      LastUpsertWins(f, front, varName);
      var g := AfterAll(f, front);
      AfterLines(g, last.varName, last.value, last.mode);
      if last.varName == varName {
        SingleLineUpsert(g, varName, last.value, last.mode);
      } else {
        OtherVariableKept(g, last.varName, last.value, last.mode, varName);
      }
    }
  }

  // ---------------------------------------------------------------- what the provider observes

  predicate Observed(f: File, varName: string, value: string) {
    f.File? && Rendered(varName, value) in Split(UnCRLF(f.text), '\n')
  }

  lemma {:induction false} TrimmedLines(s: string, line: string)
    requires line != ""
    ensures line in Split(TrimNewlines(s), '\n') <==> line in Split(s, '\n')
  {
    if s != "" && s[|s| - 1] == '\n' {
      var front := s[..|s| - 1];
      TrimmedLines(front, line);
      assert s == front + ['\n'] + "";
      SplitConcat(front, "", '\n');
    }
  }

  /** Right after an upsert the provider observes the desired value exactly when there is one and it
      fits on a line. */
  lemma ObservedIff(f: File, varName: string, value: string, mode: nat)
    requires IsClean(f) && IsName(varName) && '\r' !in value
    ensures Observed(AfterUpsert(f, varName, value, mode), varName, value) <==> value != "" && '\n' !in value
  {
    var f' := AfterUpsert(f, varName, value, mode);
    var r, after := Rendered(varName, value), Lines(TextOf(f'));
    RenderedShape(varName, value);
    TrimmedLines(UnCRLF(TextOf(f')), r);
    SplitPartsClean(UnCRLF(TextOf(f')), '\n');
    if '\n' !in value {
      SingleLineUpsert(f, varName, value, mode);
      SelectMembers(after, line => Matches(line, varName));
      assert r in Matching(after, varName) <==> r in after;
      NoChangeIff(f, varName, value);
      AddedShape(varName, value);
    } else {
      assert '\n' in r;
      assert r !in Split(UnCRLF(TextOf(f')), '\n');
    }
  }

  datatype DriftReason = FileMissing | ModeDiffers | ValueDiffers | ShouldBeAbsent

  /** The file is not as desired: missing, of another mode, or without the value (or with it, when
      the value is to be absent). */
  predicate Drifted(f: File, varName: string, value: string, mode: nat) {
    if f.Missing? then value != ""
    else f.mode != mode || ((value != "") != Observed(f, varName, value))
  }

  /** diffExport on what was observed: reasons are given exactly when the file has drifted. */
  method DiffExport(f: File, hasDesired: bool, varName: string, value: string, mode: nat)
    returns (reasons: seq<DriftReason>)
    ensures hasDesired == Observed(f, varName, value) ==> (reasons != [] <==> Drifted(f, varName, value, mode))
    ensures FileMissing in reasons <==> f.Missing? && value != ""
    ensures ModeDiffers in reasons <==> f.File? && f.mode != mode
    ensures ValueDiffers in reasons <==> f.File? && value != "" && !hasDesired
    ensures ShouldBeAbsent in reasons <==> f.File? && value == "" && hasDesired
  {
    reasons := [];
    if f.Missing? {
      if value != "" {
        reasons := reasons + [FileMissing];
      }
      return;
    }
    if f.mode != mode {
      reasons := reasons + [ModeDiffers];
    }
    if value != "" && !hasDesired {
      reasons := reasons + [ValueDiffers];
    }
    if value == "" && hasDesired {
      reasons := reasons + [ShouldBeAbsent];
    }
  }

  /** Drift that an upsert does not cure: a value that spans lines, and the wrong mode of a file
      whose lines needed no change. */
  lemma StillDriftedIff(f: File, varName: string, value: string, mode: nat)
    requires IsClean(f) && IsName(varName) && '\r' !in value
    ensures Drifted(AfterUpsert(f, varName, value, mode), varName, value, mode)
       <==> '\n' in value || (f.File? && f.mode != mode && ChangeOf(f, varName, value).NoChange?)
  {
    ObservedIff(f, varName, value, mode);
  }

  /** For example: once a value has been exported, asking for another mode changes nothing, and the
      wrong mode is drift for good. */
  lemma WrongModeStays(varName: string, value: string, was: nat, mode: nat)
    requires IsName(varName) && '\r' !in value && '\n' !in value && value != "" && was != mode
    ensures var f := AfterUpsert(Missing, varName, value, was);
            && f.File? && f.mode == was
            && AfterUpsert(f, varName, value, mode) == f
            && Drifted(f, varName, value, mode)
  {
    assert UnCRLF("") == "" && Lines("") == [""];
    UpsertConvergesIff(Missing, varName, value, was);
    SingleLineIsRecognised(varName, value);
    ObservedIff(Missing, varName, value, was);
  }

  /** Create and Update of the export resource: apply, observe, compare. What they report as drift
      after applying is exactly what the upsert could not cure; a preview reports the drift it found. */
  method ApplyExport(host: HostFile, varName: string, value: string, mode: nat, apply: bool)
    returns (drifted: bool, reasons: seq<DriftReason>)
    requires IsClean(host.file) && IsName(varName) && '\r' !in value
    modifies host
    ensures host.file == if apply then AfterUpsert(old(host.file), varName, value, mode) else old(host.file)
    ensures drifted <==> reasons != []
    ensures apply ==> (drifted <==>
      '\n' in value
      || (old(host.file).File? && old(host.file).mode != mode && ChangeOf(old(host.file), varName, value).NoChange?))
    ensures !apply ==> (drifted <==> Drifted(old(host.file), varName, value, mode))
  {
    StillDriftedIff(host.file, varName, value, mode);
    var change := host.UpsertExport(varName, value, mode, apply);
    var present, hasDesired := host.ObserveExport(varName, value);
    reasons := DiffExport(host.file, hasDesired, varName, value, mode);
    drifted := |reasons| > 0;
  }

  /** What the shell makes of the one line left of the variable. */
  lemma ShellReadsUpserted(f: File, varName: string, value: string, mode: nat)
    requires IsClean(f) && IsName(varName) && IsOrdinaryText(varName) && '\r' !in value && '\n' !in value && value != ""
    ensures var lines := Matching(Lines(TextOf(AfterUpsert(f, varName, value, mode))), varName);
            |lines| == 1 && |lines[0]| >= 7 && ReadWord(lines[0][7..], false) == Some(varName + "=" + value)
  {
    SingleLineUpsert(f, varName, value, mode);
    RenderedReadsBack(varName, value);
  }
}
