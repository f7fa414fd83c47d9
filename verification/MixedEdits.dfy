/** Required lines and exports edited into one file by several processes. */
module MixedEdits {
  import opened Text
  import opened HostFiles
  import opened ExportConvergence
  import opened SharedFile
  import ShellQuote

  // ---------------------------------------------------------------- line ends

  /** Replacing CRLF ends takes a carriage return off some lines and leaves the others alone. */
  predicate SameButForCR(raw: seq<string>, normal: seq<string>) {
    |raw| == |normal| && forall i :: 0 <= i < |raw| ==> raw[i] == normal[i] || raw[i] == normal[i] + "\r"
  }

  lemma PrependSame(c: char, raw: seq<string>, normal: seq<string>)
    requires SameButForCR(raw, normal) && |raw| >= 1
    ensures SameButForCR([[c] + raw[0]] + raw[1..], [[c] + normal[0]] + normal[1..])
  {
    assert [c] + (normal[0] + "\r") == ([c] + normal[0]) + "\r";
    var a, b := [[c] + raw[0]] + raw[1..], [[c] + normal[0]] + normal[1..];
    forall i | 0 <= i < |a| ensures a[i] == b[i] || a[i] == b[i] + "\r" {
      if i > 0 {
        assert a[i] == raw[i] && b[i] == normal[i];
      }
    }
  }

  lemma PrependEqual(head: string, head': string, raw: seq<string>, normal: seq<string>)
    requires SameButForCR(raw, normal) && (head == head' || head == head' + "\r")
    ensures SameButForCR([head] + raw, [head'] + normal)
  {
  }

  lemma {:induction false} NormalLines(s: string)
    ensures SameButForCR(Split(s, '\n'), Split(UnCRLF(s), '\n'))
    decreases |s|
  {
    if s == "" {
    } else if |s| >= 2 && s[0] == '\r' && s[1] == '\n' {
      NormalLines(s[2..]);
      SplitHead("\r", s[2..], '\n');
      assert s == "\r" + ['\n'] + s[2..];
      SplitStep('\n', UnCRLF(s[2..]), '\n');
      assert "" + "\r" == "\r";
      PrependEqual("\r", "", Split(s[2..], '\n'), Split(UnCRLF(s[2..]), '\n'));
    } else {
      NormalLines(s[1..]);
      assert [s[0]] + s[1..] == s;
      SplitStep(s[0], s[1..], '\n');
      SplitStep(s[0], UnCRLF(s[1..]), '\n');
      if s[0] == '\n' {
        PrependEqual("", "", Split(s[1..], '\n'), Split(UnCRLF(s[1..]), '\n'));
      } else {
        PrependSame(s[0], Split(s[1..], '\n'), Split(UnCRLF(s[1..]), '\n'));
      }
    }
  }

  lemma RawLineIsNormal(s: string, line: string)
    requires line in Split(s, '\n') && '\r' !in line
    ensures line in Split(UnCRLF(s), '\n')
  {
    NormalLines(s);
    var i :| 0 <= i < |Split(s, '\n')| && Split(s, '\n')[i] == line;
    var normal := Split(UnCRLF(s), '\n')[i];
    assert (normal + "\r")[|normal|] == '\r';
  }

  lemma {:induction false} UnCRLFConcat(a: string, b: string)
    requires !EndsInCR(a)
    ensures UnCRLF(a + b) == UnCRLF(a) + UnCRLF(b)
    decreases |a|
  {
    if a == "" {
      assert a + b == b;
    } else if |a| >= 2 && a[0] == '\r' && a[1] == '\n' {
      UnCRLFConcat(a[2..], b);
      assert (a + b)[2..] == a[2..] + b;
    } else {
      UnCRLFConcat(a[1..], b);
      assert (a + b)[1..] == a[1..] + b && (a + b)[0] == a[0];
      assert |a| >= 2 ==> (a + b)[1] == a[1];
      SeqAssoc([a[0]], UnCRLF(a[1..]), UnCRLF(b));
    }
  }

  lemma {:induction false} UnCRLFEnd(s: string)
    requires s != ""
    ensures UnCRLF(s) != "" && UnCRLF(s)[|UnCRLF(s)| - 1] == s[|s| - 1]
    decreases |s|
  {
    if |s| >= 2 && s[0] == '\r' && s[1] == '\n' {
      if |s| > 2 {
        UnCRLFEnd(s[2..]);
      }
    } else if |s| > 1 {
      UnCRLFEnd(s[1..]);
    }
  }

  lemma {:induction false} TrimmedNonBlank(s: string)
    ensures NonBlank(Split(TrimNewlines(s), '\n')) == NonBlank(Split(s, '\n'))
  {
    if s != "" && s[|s| - 1] == '\n' {
      var front := s[..|s| - 1];
      TrimmedNonBlank(front);
      assert s == front + "\n";
      HeldOfTerminated(front);
    }
  }

  // ---------------------------------------------------------------- one required line

  /** The lines a file shows, whichever line ends it has, blank ones aside. */
  function Shown(f: File): seq<string> {
    NonBlank(Lines(TextOf(f)))
  }

  predicate IsPlainLine(line: string) {
    IsLine(line) && '\r' !in line
  }

  lemma CleanEnd(f: File)
    requires IsClean(f)
    ensures !EndsInCR(TextOf(f))
  {
    var text := TextOf(f);
    if EndsInCR(text) {
      UnCRLFEnd(text);
      var normal := UnCRLF(text);
      assert TrimNewlines(normal) == normal;
      SplitEnd(normal, '\n');
    }
  }

  lemma NormalKeepsEnd(f: File)
    requires IsClean(f)
    ensures LacksNewline(TextOf(f)) == LacksNewline(UnCRLF(TextOf(f)))
  {
    if TextOf(f) != "" {
      UnCRLFEnd(TextOf(f));
    }
  }

  lemma LineIsNormal(sep: string, line: string)
    requires (sep == "" || sep == "\n") && IsPlainLine(line)
    ensures UnCRLF(sep + line + "\n") == sep + line + "\n"
  {
    assert '\r' !in sep + line + "\n";
    UnCRLFOfClean(sep + line + "\n");
  }

  lemma NormalOfAppended(f: File, line: string)
    requires IsClean(f) && IsPlainLine(line)
    ensures var text, normal := TextOf(f), UnCRLF(TextOf(f));
            && UnCRLF(text + (if LacksNewline(text) then "\n" else "") + line + "\n")
            == normal + (if LacksNewline(normal) then "\n" else "") + line + "\n"
  {
    var text := TextOf(f);
    var sep := if LacksNewline(text) then "\n" else "";
    CleanEnd(f);
    NormalKeepsEnd(f);
    UnCRLFConcat(text, sep + line + "\n");
    LineIsNormal(sep, line);
    assert text + sep + line + "\n" == text + (sep + line + "\n");
    assert UnCRLF(text) + sep + line + "\n" == UnCRLF(text) + (sep + line + "\n");
  }

  lemma CleanFromShown(f: File)
    requires forall x :: x in Shown(f) ==> !EndsInCR(x)
    ensures IsClean(f)
  {
    var lines := Lines(TextOf(f));
    SplitPartsClean(NormalizeLines(TextOf(f)), '\n');
    SelectMembers(lines, x => x != "");
    forall i | 0 <= i < |lines| ensures !EndsInCR(lines[i]) {
      assert lines[i] in lines;
    }
  }

  /** A required line that is appended joins the end of what the file shows; one that is not was
      there already. */
  lemma EnsureShown(f: File, line: string, mode: nat)
    requires IsClean(f) && IsPlainLine(line)
    ensures var f' := AfterEnsure(f, line, mode);
            && IsClean(f')
            && (Shown(f') == if EnsureChange(f, line).NoChange? then Shown(f) else Shown(f) + [line])
            && line in Shown(f')
  {
    var f' := AfterEnsure(f, line, mode);
    var text, normal := TextOf(f), UnCRLF(TextOf(f));
    if EnsureChange(f, line).NoChange? {
      TrimmedLines(text, line);
      RawLineIsNormal(text, line);
      TrimmedLines(normal, line);
      SelectMembers(Lines(text), x => x != "");
    } else {
      NormalOfAppended(f, line);
      HeldOfAppended(normal, line);
      HeldOfLine(line);
      TrimmedNonBlank(normal);
      TrimmedNonBlank(UnCRLF(TextOf(f')));
      ShownIsClean(f);
      CleanFromShown(f');
    }
  }

  lemma ShownIsClean(f: File)
    requires IsClean(f)
    ensures forall x :: x in Shown(f) ==> !EndsInCR(x)
  {
    SelectMembers(Lines(TextOf(f)), x => x != "");
  }

  // ---------------------------------------------------------------- any sequence of edits

  predicate IsPlain(r: Request) {
    match r
    case Ensure(line, _) => IsPlainLine(line)
    case Export(u) => IsName(u.varName) && '\r' !in u.value && '\n' !in u.value
  }

  predicate ArePlain(requests: seq<Request>) {
    forall i :: 0 <= i < |requests| ==> IsPlain(requests[i])
  }

  /** The line is no assignment of a variable that some request exports. */
  predicate IsUnrelated(line: string, requests: seq<Request>) {
    forall i :: 0 <= i < |requests| && requests[i].Export? ==> !Matches(line, requests[i].upsert.varName)
  }

  /** No request requires a line that assigns the variable. */
  predicate OnlyExported(varName: string, requests: seq<Request>) {
    forall i :: 0 <= i < |requests| && requests[i].Ensure? ==> !Matches(requests[i].line, varName)
  }

  function LastExport(requests: seq<Request>, varName: string): Option<string> {
    if |requests| == 0 then None
    else
      var last := requests[|requests| - 1];
      if last.Export? && last.upsert.varName == varName then Some(last.upsert.value)
      else LastExport(requests[..|requests| - 1], varName)
  }

  lemma EffectIsClean(f: File, r: Request)
    requires IsClean(f) && IsPlain(r)
    ensures IsClean(Effect(f, r))
  {
    match r {
      case Ensure(line, mode) => EnsureShown(f, line, mode);
      case Export(u) => AfterLines(f, u.varName, u.value, u.mode);
    }
  }

  lemma {:induction false} StaysClean(f: File, requests: seq<Request>)
    requires IsClean(f) && ArePlain(requests)
    ensures IsClean(InOrder(f, requests))
  {
    if |requests| > 0 {
      StaysClean(f, requests[..|requests| - 1]);
      EffectIsClean(InOrder(f, requests[..|requests| - 1]), requests[|requests| - 1]);
    }
  }

  lemma ShownHas(f: File, line: string)
    requires line != ""
    ensures line in Shown(f) <==> line in Lines(TextOf(f))
  {
    SelectMembers(Lines(TextOf(f)), x => x != "");
  }

  lemma UnrelatedStep(f: File, r: Request, line: string)
    requires IsClean(f) && IsPlain(r) && line != "" && IsUnrelated(line, [r])
    ensures line in Shown(Effect(f, r)) <==> line in Shown(f) || (r.Ensure? && r.line == line)
  {
    match r {
      case Ensure(required, mode) => EnsureShown(f, required, mode);
      case Export(u) =>
        assert [r][0] == r;
        var f' := AfterUpsert(f, u.varName, u.value, u.mode);
        SingleLineUpsert(f, u.varName, u.value, u.mode);
        OtherShown(f, u.varName, line);
        OtherShown(f', u.varName, line);
    }
  }

  lemma OtherShown(f: File, varName: string, line: string)
    requires line != "" && !Matches(line, varName)
    ensures line in Shown(f) <==> line in NonBlank(Others(Lines(TextOf(f)), varName))
  {
    var lines := Lines(TextOf(f));
    SelectMembers(lines, x => x != "");
    SelectMembers(lines, x => !Matches(x, varName));
    SelectMembers(Others(lines, varName), x => x != "");
  }

  /** Mixed edits, one after the other: a line that assigns no exported variable is shown at the end
      exactly when it was shown before or was required. */
  lemma {:induction false} UnrelatedLineShownIff(f: File, requests: seq<Request>, line: string)
    requires IsClean(f) && ArePlain(requests) && line != "" && IsUnrelated(line, requests)
    ensures line in Shown(InOrder(f, requests)) <==> line in Shown(f) || IsRequested(requests, line)
  {
    if |requests| > 0 {
      var front, last := requests[..|requests| - 1], requests[|requests| - 1];
      UnrelatedLineShownIff(f, front, line);
      StaysClean(f, front);
      UnrelatedStep(InOrder(f, front), last, line);
      RequestedStep(requests, line);
    }
  }

  lemma MatchingOfShown(f: File, varName: string)
    ensures Matching(Lines(TextOf(f)), varName) == Matching(Shown(f), varName)
  {
    BlankNeverMatches(varName);
    SelectThrough(Lines(TextOf(f)), x => x != "", x => Matches(x, varName));
  }

  lemma VariableStep(f: File, r: Request, varName: string)
    requires IsClean(f) && IsPlain(r) && IsName(varName) && OnlyExported(varName, [r])
    ensures Matching(Lines(TextOf(Effect(f, r))), varName)
         == if r.Export? && r.upsert.varName == varName
            then if r.upsert.value == "" then [] else [ShellQuote.Rendered(varName, r.upsert.value)]
            else Matching(Lines(TextOf(f)), varName)
  {
    assert [r][0] == r;
    match r {
      case Ensure(line, mode) =>
        EnsureShown(f, line, mode);
        MatchingOfShown(f, varName);
        MatchingOfShown(AfterEnsure(f, line, mode), varName);
        SelectStep(Shown(f), line, x => Matches(x, varName));
      case Export(u) =>
        if u.varName == varName {
          SingleLineUpsert(f, varName, u.value, u.mode);
        } else {
          OtherVariableKept(f, u.varName, u.value, u.mode, varName);
        }
    }
  }

  /** And a variable that no required line assigns has the value exported last. */
  lemma {:induction false} VariableHasLastExport(f: File, requests: seq<Request>, varName: string)
    requires IsClean(f) && ArePlain(requests) && IsName(varName) && OnlyExported(varName, requests)
    ensures Matching(Lines(TextOf(InOrder(f, requests))), varName)
         == match LastExport(requests, varName)
            case None => Matching(Lines(TextOf(f)), varName)
            case Some(value) => if value == "" then [] else [ShellQuote.Rendered(varName, value)]
  {
    if |requests| > 0 {
      var front, last := requests[..|requests| - 1], requests[|requests| - 1];
      VariableHasLastExport(f, front, varName);
      StaysClean(f, front);
      VariableStep(InOrder(f, front), last, varName);
    }
  }

  // ---------------------------------------------------------------- under the lock

  /** Processes that require lines and export variables in one file, in any interleaving under the
      lock: unrelated lines are neither lost nor invented, and each variable has the value written last. */
  lemma MixedEditsKept(states: seq<System>, steps: seq<Step>, i: nat, line: string, varName: string)
    requires IsRun(states, steps) && IsStart(states[0]) && EveryoneLocks(steps) && i < |states|
    requires IsClean(states[0].file) && ArePlain(states[i].log)
    ensures line != "" && IsUnrelated(line, states[i].log) ==>
      (line in Shown(states[i].file) <==> line in Shown(states[0].file) || IsRequested(states[i].log, line))
    ensures IsName(varName) && OnlyExported(varName, states[i].log) ==>
      Matching(Lines(TextOf(states[i].file)), varName)
      == match LastExport(states[i].log, varName)
         case None => Matching(Lines(TextOf(states[0].file)), varName)
         case Some(value) => if value == "" then [] else [ShellQuote.Rendered(varName, value)]
  {
    Serializable(states, steps, i);
    if line != "" && IsUnrelated(line, states[i].log) {
      UnrelatedLineShownIff(states[0].file, states[i].log, line);
    }
    if IsName(varName) && OnlyExported(varName, states[i].log) {
      VariableHasLastExport(states[0].file, states[i].log, varName);
    }
  }
}
