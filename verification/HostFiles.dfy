/** Host files edited line by line: required lines, shell export lines, and the provider's view of them. */
module HostFiles {
  import opened Text
  import opened ShellQuote

  // ---------------------------------------------------------------- selecting lines

  /** The lines that satisfy a predicate, in order. */
  function Select(lines: seq<string>, keep: string -> bool): seq<string> {
    if |lines| == 0 then []
    else
      var last := lines[|lines| - 1];
      Select(lines[..|lines| - 1], keep) + (if keep(last) then [last] else [])
  }

  lemma SelectStep(lines: seq<string>, line: string, keep: string -> bool)
    ensures Select(lines + [line], keep) == Select(lines, keep) + (if keep(line) then [line] else [])
  {
    assert (lines + [line])[..|lines|] == lines;
  }

  lemma {:induction false} SelectConcat(a: seq<string>, b: seq<string>, keep: string -> bool)
    ensures Select(a + b, keep) == Select(a, keep) + Select(b, keep)
  {
    if |b| == 0 {
      assert a + b == a;
    } else {
      SelectConcat(a, b[..|b| - 1], keep);
      assert a + b == (a + b[..|b| - 1]) + [b[|b| - 1]];
      SelectStep(a + b[..|b| - 1], b[|b| - 1], keep);
    }
  }

  lemma {:induction false} SelectMembers(lines: seq<string>, keep: string -> bool)
    ensures forall x :: x in Select(lines, keep) <==> x in lines && keep(x)
  {
    if |lines| > 0 {
      SelectMembers(lines[..|lines| - 1], keep);
      assert lines == lines[..|lines| - 1] + [lines[|lines| - 1]];
    }
  }

  lemma {:induction false} SelectAll(lines: seq<string>, keep: string -> bool)
    requires forall x :: x in lines ==> keep(x)
    ensures Select(lines, keep) == lines
  {
    if |lines| > 0 {
      SelectAll(lines[..|lines| - 1], keep);
      assert lines == lines[..|lines| - 1] + [lines[|lines| - 1]];
    }
  }

  lemma {:induction false} SelectNone(lines: seq<string>, keep: string -> bool)
    requires forall x :: x in lines ==> !keep(x)
    ensures Select(lines, keep) == []
  {
    if |lines| > 0 {
      SelectNone(lines[..|lines| - 1], keep);
      assert lines[|lines| - 1] in lines;
    }
  }

  lemma {:induction false} SelectCounts(lines: seq<string>, keep: string -> bool)
    ensures forall x :: multiset(Select(lines, keep))[x] == if keep(x) then multiset(lines)[x] else 0
  {
    if |lines| > 0 {
      SelectCounts(lines[..|lines| - 1], keep);
      assert lines == lines[..|lines| - 1] + [lines[|lines| - 1]];
    }
  }

  /** Selecting first by a weaker predicate makes no difference. */
  lemma {:induction false} SelectThrough(lines: seq<string>, weak: string -> bool, strong: string -> bool)
    requires forall x :: x in lines && strong(x) ==> weak(x)
    ensures Select(Select(lines, weak), strong) == Select(lines, strong)
  {
    if |lines| > 0 {
      var front, last := lines[..|lines| - 1], lines[|lines| - 1];
      SelectThrough(front, weak, strong);
      assert last in lines && (forall x :: x in front ==> x in lines);
      if weak(last) {
        SelectStep(Select(front, weak), last, strong);
      } else {
        assert Select(lines, weak) == Select(front, weak);
      }
    }
  }

  // ---------------------------------------------------------------- line ends

  /** strings.ReplaceAll(s, "\r\n", "\n"). */
  function UnCRLF(s: string): string {
    if s == "" then ""
    else if |s| >= 2 && s[0] == '\r' && s[1] == '\n' then "\n" + UnCRLF(s[2..])
    else [s[0]] + UnCRLF(s[1..])
  }

  predicate NoCRLF(s: string) {
    forall i :: 0 <= i < |s| - 1 ==> s[i] != '\r' || s[i + 1] != '\n'
  }

  predicate EndsInCR(line: string) {
    line != "" && line[|line| - 1] == '\r'
  }

  /** Single lines none of which ends in a carriage return. */
  predicate AreClean(lines: seq<string>) {
    && NoneContains(lines, '\n')
    && forall i :: 0 <= i < |lines| ==> !EndsInCR(lines[i])
  }

  lemma {:induction false} UnCRLFOfClean(s: string)
    requires NoCRLF(s)
    ensures UnCRLF(s) == s
  {
    if s != "" {
      assert forall i :: 0 <= i < |s[1..]| ==> s[1..][i] == s[i + 1];
      UnCRLFOfClean(s[1..]);
    }
  }

  lemma {:induction false} JoinNoCRLF(lines: seq<string>)
    requires AreClean(lines)
    ensures NoCRLF(Join(lines, "\n")) && NoCRLF(Join(lines, "\n") + "\n")
  {
    if |lines| == 1 {
      var s := lines[0] + "\n";
      assert forall i :: 0 <= i < |lines[0]| ==> s[i] == lines[0][i];
    } else if |lines| > 1 {
      JoinNoCRLF(lines[1..]);
      var first, rest := lines[0] + "\n", Join(lines[1..], "\n");
      assert forall i :: 0 <= i < |lines[0]| ==> first[i] == lines[0][i];
      ConcatNoCRLF(first, rest);
      ConcatNoCRLF(first, rest + "\n");
      assert first + (rest + "\n") == Join(lines, "\n") + "\n";
    }
  }

  lemma ConcatNoCRLF(first: string, rest: string)
    requires NoCRLF(first) && NoCRLF(rest) && !EndsInCR(first)
    ensures NoCRLF(first + rest)
  {
    forall i | 0 <= i < |first + rest| - 1 ensures (first + rest)[i] != '\r' || (first + rest)[i + 1] != '\n' {
      if i >= |first| {
        assert (first + rest)[i] == rest[i - |first|] && (first + rest)[i + 1] == rest[i - |first| + 1];
      }
    }
  }

  function NormalizeLines(content: string): string {
    TrimNewlines(UnCRLF(content))
  }

  function NormalizeEmpty(content: string): string {
    if content == "" then "" else NormalizeLines(content) + "\n"
  }

  /** The lines of a text, without the blank ones at its end. */
  function Lines(text: string): seq<string> {
    Split(NormalizeLines(text), '\n')
  }

  function DropBlanks(lines: seq<string>): seq<string> {
    if |lines| > 0 && lines[|lines| - 1] == "" then DropBlanks(lines[..|lines| - 1]) else lines
  }

  /** The loop of dropEmptyTrailingLines. */
  method DropEmptyTrailingLines(lines: seq<string>) returns (kept: seq<string>)
    ensures kept == DropBlanks(lines)
    ensures kept <= lines && (kept == [] || kept[|kept| - 1] != "")
    ensures forall i :: |kept| <= i < |lines| ==> lines[i] == ""
  {
    var last := |lines|;
    assert lines[..last] == lines;
    while last > 0 && lines[last - 1] == ""
      invariant 0 <= last <= |lines|
      invariant DropBlanks(lines[..last]) == DropBlanks(lines)
      invariant forall i :: last <= i < |lines| ==> lines[i] == ""
    {
      assert lines[..last][..last - 1] == lines[..last - 1];
      last := last - 1;
    }
    return lines[..last];
  }

  lemma {:induction false} DropBlanksShape(lines: seq<string>)
    ensures DropBlanks(lines) <= lines
    ensures DropBlanks(lines) == [] || DropBlanks(lines)[|DropBlanks(lines)| - 1] != ""
    ensures forall x :: x in lines && x != "" ==> x in DropBlanks(lines)
  {
    if |lines| > 0 && lines[|lines| - 1] == "" {
      DropBlanksShape(lines[..|lines| - 1]);
      assert lines == lines[..|lines| - 1] + [""];
    }
  }

  /** Blank lines at the end make no difference to a selection of other lines. */
  lemma {:induction false} SelectDropBlanks(lines: seq<string>, keep: string -> bool)
    requires !keep("")
    ensures Select(DropBlanks(lines), keep) == Select(lines, keep)
  {
    if |lines| > 0 && lines[|lines| - 1] == "" {
      SelectDropBlanks(lines[..|lines| - 1], keep);
    }
  }

  /** The lines as a file holds them: no text is still one blank line. */
  function Settled(lines: seq<string>): seq<string> {
    if DropBlanks(lines) == [] then [""] else DropBlanks(lines)
  }

  lemma SelectSettled(lines: seq<string>, keep: string -> bool)
    requires !keep("")
    ensures Select(Settled(lines), keep) == Select(lines, keep)
  {
    SelectDropBlanks(lines, keep);
    SelectNone([""], keep);
  }

  // ---------------------------------------------------------------- upsert

  predicate HasPrefix(s: string, prefix: string) {
    prefix <= s
  }

  predicate Matches(line: string, varName: string) {
    HasPrefix(line, "export " + varName + "=") || HasPrefix(line, "declare -x " + varName + "=")
  }

  function Matching(lines: seq<string>, varName: string): seq<string> {
    Select(lines, line => Matches(line, varName))
  }

  function Others(lines: seq<string>, varName: string): seq<string> {
    Select(lines, line => !Matches(line, varName))
  }

  function NonBlank(lines: seq<string>): seq<string> {
    Select(lines, line => line != "")
  }

  /** The loop of filterExportLines: blank lines stay, lines of the variable go. */
  method FilterExportLines(lines: seq<string>, varName: string) returns (filtered: seq<string>)
    ensures filtered == Others(lines, varName)
    ensures forall line :: "export " + varName + "=" <= line || "declare -x " + varName + "=" <= line ==>
      line !in filtered
    ensures forall line :: !("export " + varName + "=" <= line) && !("declare -x " + varName + "=" <= line) ==>
      multiset(filtered)[line] == multiset(lines)[line]
  {
    SelectCounts(lines, l => !Matches(l, varName));
    SelectMembers(lines, l => !Matches(l, varName));
    filtered := [];
    var prefixes := ["export " + varName + "=", "declare -x " + varName + "="];
    for i := 0 to |lines|
      invariant filtered == Others(lines[..i], varName)
    {
      var line := lines[i];
      assert lines[..i + 1] == lines[..i] + [line];
      SelectStep(lines[..i], line, l => !Matches(l, varName));
      if line == "" {
        filtered := filtered + [line];
        continue;
      }
      var keep := true;
      for j := 0 to |prefixes|
        invariant keep
        invariant forall k :: 0 <= k < j ==> !HasPrefix(line, prefixes[k])
      {
        if HasPrefix(line, prefixes[j]) {
          keep := false;
          break;
        }
      }
      assert keep <==> !Matches(line, varName) by {
        assert prefixes[0] == "export " + varName + "=" && prefixes[1] == "declare -x " + varName + "=";
      }
      if keep {
        filtered := filtered + [line];
      }
    }
    assert lines[..|lines|] == lines;
  }

  /** A file, when there is one: its text and its permission bits. */
  datatype File = Missing | File(text: string, mode: nat)

  function TextOf(f: File): string {
    if f.File? then f.text else ""
  }

  datatype Change = NoChange | Create | Update | Delete

  function Render(lines: seq<string>): string {
    var content := TrimNewlines(Join(DropBlanks(lines), "\n"));
    if content == "" then "" else content + "\n"
  }

  /** What an upsert leaves of the lines, and adds to them; a value with newlines adds several. */
  function Upserted(lines: seq<string>, varName: string, value: string): seq<string> {
    Others(lines, varName) + (if value == "" then [] else Split(Rendered(varName, value), '\n'))
  }

  function ChangeOf(f: File, varName: string, value: string): Change {
    var content := Render(Upserted(Lines(TextOf(f)), varName, value));
    if NormalizeEmpty(TextOf(f)) == content then NoChange
    else if content == "" then Delete
    else if f.Missing? then Create
    else Update
  }

  function AfterUpsert(f: File, varName: string, value: string, mode: nat): File {
    if ChangeOf(f, varName, value).NoChange? then f
    else File(Render(Upserted(Lines(TextOf(f)), varName, value)), mode)
  }

  // ---------------------------------------------------------------- required lines

  /** The lines EnsureLine compares with; it does not look at carriage returns. */
  function RawLines(text: string): seq<string> {
    Split(TrimNewlines(text), '\n')
  }

  predicate LacksNewline(text: string) {
    text != "" && text[|text| - 1] != '\n'
  }

  function EnsureChange(f: File, line: string): Change {
    if f.Missing? then Create
    else if line in RawLines(f.text) then NoChange
    else Update
  }

  function AfterEnsure(f: File, line: string, mode: nat): File {
    match EnsureChange(f, line)
    case NoChange => f
    case _ => File(TextOf(f) + (if LacksNewline(TextOf(f)) then "\n" else "") + line + "\n", mode)
  }

  /** The file as the process changes it; a preview (`apply` false) reports without writing. */
  class HostFile {
    var file: File

    constructor (file: File)
      ensures this.file == file
    {
      this.file := file;
    }

    method UpsertExport(varName: string, value: string, mode: nat, apply: bool) returns (change: Change)
      modifies this
      ensures change == ChangeOf(old(file), varName, value)
      ensures file == if apply then AfterUpsert(old(file), varName, value, mode) else old(file)
      ensures change.NoChange? || !apply ==> file == old(file)
      ensures !change.NoChange? && apply ==> file.File? && file.mode == mode && (file.text == "" <==> change.Delete?)
      ensures (change.Create? ==> old(file).Missing?) && (change.Update? ==> old(file).File?)
    {
      var current := TextOf(file);
      var lines := FilterExportLines(Split(NormalizeLines(current), '\n'), varName);
      ghost var kept := lines;
      if value != "" {
        lines := lines + [Rendered(varName, value)];
        RenderPhysical(kept, varName, value);
      }
      assert value == "" ==> Upserted(Lines(current), varName, value) == lines;
      var dropped := DropEmptyTrailingLines(lines);
      var content := TrimNewlines(Join(dropped, "\n"));
      if content != "" {
        content := content + "\n";
      }
      if NormalizeEmpty(current) == content {
        return NoChange;
      }
      change := if content == "" then Delete else if file.Missing? then Create else Update;
      if apply {
        file := File(content, mode);
      }
    }

    method EnsureLine(line: string, mode: nat, apply: bool) returns (change: Change)
      modifies this
      ensures change == EnsureChange(old(file), line)
      ensures file == if apply then AfterEnsure(old(file), line, mode) else old(file)
      ensures change.NoChange? || !apply ==> file == old(file)
      ensures !change.NoChange? && apply ==>
        && file.File? && file.mode == mode
        && (file.text == TextOf(old(file)) + line + "\n"
            || (TextOf(old(file)) != "" && file.text == TextOf(old(file)) + "\n" + line + "\n"))
      ensures change.Create? <==> old(file).Missing?
      ensures !change.Delete?
    {
      if file.Missing? {
        if apply {
          file := File(line + "\n", mode);
        }
        return Create;
      }
      var current := file.text;
      var lines := RawLines(current);
      for i := 0 to |lines|
        invariant line !in lines[..i]
      {
        assert lines[..i + 1] == lines[..i] + [lines[i]];
        if lines[i] == line {
          return NoChange;
        }
      }
      assert lines[..|lines|] == lines;
      if |current| > 0 && current[|current| - 1] != '\n' {
        current := current + "\n";
      }
      current := current + (line + "\n");
      if apply {
        file := File(current, mode);
      }
      return Update;
    }

    /** observeExport: does some line read exactly as the desired one? */
    method ObserveExport(varName: string, value: string) returns (present: bool, hasDesired: bool)
      ensures present == file.File?
      ensures hasDesired <==> file.File? && Rendered(varName, value) in Split(UnCRLF(file.text), '\n')
    {
      if file.Missing? {
        return false, false;
      }
      present, hasDesired := true, false;
      var lines := Split(UnCRLF(file.text), '\n');
      for i := 0 to |lines|
        invariant !hasDesired && Rendered(varName, value) !in lines[..i]
      {
        assert lines[..i + 1] == lines[..i] + [lines[i]];
        if lines[i] == Rendered(varName, value) {
          return true, true;
        }
      }
      assert lines[..|lines|] == lines;
    }
  }

  /** A last line that does not end in the separator does not vanish in a split. */
  lemma {:induction false} SplitEnd(s: string, c: char)
    requires s != "" && s[|s| - 1] != c
    ensures var parts := Split(s, c);
            parts[|parts| - 1] != "" && parts[|parts| - 1][|parts[|parts| - 1]| - 1] == s[|s| - 1]
  {
    if |s| > 1 {
      SplitEnd(s[1..], c);
    } else {
      assert s[1..] == "" && Split(s[1..], c) == [""];
    }
  }

  lemma RenderedShape(varName: string, value: string)
    ensures var r := Rendered(varName, value);
            r != "" && r[|r| - 1] == '\''
    ensures Matches(Rendered(varName, value), varName)
    ensures forall c :: c !in "export ='\\" ==> (c in Rendered(varName, value) <==> c in varName || c in value)
  {
    var r := Rendered(varName, value);
    var prefix := "export " + varName + "=";
    assert r == prefix + ("'" + Quote(value) + "'");
    forall c | c !in "export ='\\" ensures c in r <==> c in varName || c in value {
      QuoteKeeps(value, c);
      assert r == "export " + varName + "='" + Quote(value) + "'";
    }
  }

  lemma {:induction false} JoinEnd(lines: seq<string>)
    requires |lines| > 0 && lines[|lines| - 1] != ""
    requires lines[|lines| - 1][|lines[|lines| - 1]| - 1] != '\n'
    ensures var s := Join(lines, "\n"); s != "" && s[|s| - 1] != '\n'
  {
    if |lines| > 1 {
      JoinEnd(lines[1..]);
    }
  }

  lemma JoinPhysical(kept: seq<string>, line: string)
    ensures Join(kept + [line], "\n") == Join(kept + Split(line, '\n'), "\n")
  {
    var parts := Split(line, '\n');
    JoinOfSplit(line, '\n');
    if kept == [] {
      assert kept + [line] == [line] && kept + parts == parts;
    } else {
      JoinConcat(kept, [line], "\n");
      JoinConcat(kept, parts, "\n");
    }
  }

  lemma DropBlanksNone(kept: seq<string>, parts: seq<string>)
    requires |parts| > 0 && parts[|parts| - 1] != ""
    ensures DropBlanks(kept + parts) == kept + parts
  {
  }

  /** Rendering a list whose last entry spans several lines is rendering those lines. */
  lemma RenderPhysical(kept: seq<string>, varName: string, value: string)
    ensures Render(kept + [Rendered(varName, value)]) == Render(kept + Split(Rendered(varName, value), '\n'))
  {
    var r := Rendered(varName, value);
    RenderedShape(varName, value);
    SplitEnd(r, '\n');
    JoinPhysical(kept, r);
    DropBlanksNone(kept, [r]);
    DropBlanksNone(kept, Split(r, '\n'));
  }
}
