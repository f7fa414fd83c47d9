/** Several processes editing one host file under its advisory lock. */
module SharedFile {
  import opened Text
  import opened HostFiles
  import opened ExportConvergence
  import ShellQuote

  // ---------------------------------------------------------------- required lines

  /** The lines a file holds, blank ones aside. */
  function Held(f: File): seq<string> {
    NonBlank(Split(TextOf(f), '\n'))
  }

  predicate IsLine(line: string) {
    line != "" && '\n' !in line
  }

  lemma HeldIsRaw(f: File, line: string)
    requires line != ""
    ensures line in Held(f) <==> line in RawLines(TextOf(f))
  {
    TrimmedLines(TextOf(f), line);
    SelectMembers(Split(TextOf(f), '\n'), x => x != "");
  }

  lemma NonBlankConcat(a: seq<string>, b: seq<string>)
    ensures NonBlank(a + b) == NonBlank(a) + NonBlank(b)
  {
    SelectConcat(a, b, x => x != "");
  }

  lemma HeldOfTerminated(front: string)
    ensures NonBlank(Split(front + "\n", '\n')) == NonBlank(Split(front, '\n'))
  {
    assert front + "\n" == front + ['\n'] + "";
    SplitConcat(front, "", '\n');
    NonBlankConcat(Split(front, '\n'), [""]);
    SelectNone([""], x => x != "");
  }

  /** Appending a line to a text, with a newline between them where one is missing. */
  lemma HeldOfAppended(text: string, line: string)
    ensures NonBlank(Split(text + (if LacksNewline(text) then "\n" else "") + line + "\n", '\n'))
         == NonBlank(Split(text, '\n')) + NonBlank(Split(line, '\n'))
  {
    HeldOfTerminated(text + (if LacksNewline(text) then "\n" else "") + line);
    if text == "" {
      assert text + "" + line == line;
      SelectNone([""], x => x != "");
    } else {
      var front := if LacksNewline(text) then text else text[..|text| - 1];
      assert text + (if LacksNewline(text) then "\n" else "") + line == front + ['\n'] + line;
      SplitConcat(front, line, '\n');
      NonBlankConcat(Split(front, '\n'), Split(line, '\n'));
      if !LacksNewline(text) {
        assert text == front + "\n";
        HeldOfTerminated(front);
      }
    }
  }

  /** What one required line does to the lines of a file. */
  function WithLine(held: seq<string>, line: string): seq<string> {
    if line in held then held else held + [line]
  }

  lemma HeldOfMissing()
    ensures Held(Missing) == [] && Held(File("", 0)) == []
  {
    SelectNone([""], x => x != "");
  }

  lemma HeldOfLine(line: string)
    requires IsLine(line)
    ensures NonBlank(Split(line, '\n')) == [line]
  {
    SplitOfClean(line, '\n');
    SelectAll([line], x => x != "");
  }

  /** One required line: it is there afterwards, at the end if it was not there before, and what
      was there stays. */
  lemma EnsureHolds(f: File, line: string, mode: nat)
    requires IsLine(line)
    ensures Held(AfterEnsure(f, line, mode)) == WithLine(Held(f), line)
  {
    HeldIsRaw(f, line);
    HeldOfMissing();
    if !EnsureChange(f, line).NoChange? {
      HeldOfAppended(TextOf(f), line);
      HeldOfLine(line);
    }
  }

  /** The text itself is only ever extended. */
  lemma EnsureExtends(f: File, line: string, mode: nat)
    ensures TextOf(f) <= TextOf(AfterEnsure(f, line, mode))
  {
  }

  /** A second identical call changes nothing exactly when the line has no newline in it and is not
      blank, or is blank and already counts as present: a blank line is appended again and again to a
      file that does not have one before its end, and a line with a newline is always appended again. */
  lemma EnsureAgainIff(f: File, line: string, mode: nat)
    ensures EnsureChange(AfterEnsure(f, line, mode), line).NoChange?
       <==> '\n' !in line && (line != "" || f.Missing? || EnsureChange(f, line).NoChange?)
  {
    var f' := AfterEnsure(f, line, mode);
    SplitPartsClean(TrimNewlines(TextOf(f')), '\n');
    if IsLine(line) {
      EnsureHolds(f, line, mode);
      HeldIsRaw(f', line);
    } else if line == "" && EnsureChange(f, line).Update? {
      BlankStaysAbsent(f.text);
    } else if line == "" && f.Missing? {
      assert f'.text == "\n" && "\n"[..0] == "";
      assert TrimNewlines("\n") == TrimNewlines("");
    }
  }

  lemma BlankStaysAbsent(text: string)
    requires "" !in RawLines(text)
    ensures "" !in RawLines(text + (if LacksNewline(text) then "\n" else "") + "" + "\n")
  {
    var closed := text + (if LacksNewline(text) then "\n" else "");
    assert (closed + "\n")[..|closed|] == closed;
    assert closed + "" + "\n" == closed + "\n";
    if LacksNewline(text) {
      assert closed[..|text|] == text;
      assert TrimNewlines(closed + "\n") == TrimNewlines(closed);
      assert TrimNewlines(closed) == TrimNewlines(text);
    } else {
      assert closed == text;
    }
  }

  // ---------------------------------------------------------------- requests in order

  datatype Request = Ensure(line: string, mode: nat) | Export(upsert: Upsert)

  function Effect(f: File, r: Request): File {
    match r
    case Ensure(line, mode) => AfterEnsure(f, line, mode)
    case Export(u) => AfterUpsert(f, u.varName, u.value, u.mode)
  }

  function InOrder(f: File, requests: seq<Request>): File {
    if |requests| == 0 then f else Effect(InOrder(f, requests[..|requests| - 1]), requests[|requests| - 1])
  }

  predicate OnlyLines(requests: seq<Request>) {
    forall i :: 0 <= i < |requests| ==> requests[i].Ensure? && IsLine(requests[i].line)
  }

  predicate IsRequested(requests: seq<Request>, line: string) {
    exists i :: 0 <= i < |requests| && requests[i].Ensure? && requests[i].line == line
  }

  lemma RequestedStep(requests: seq<Request>, line: string)
    requires |requests| > 0
    ensures IsRequested(requests, line)
       <==> IsRequested(requests[..|requests| - 1], line)
            || (requests[|requests| - 1].Ensure? && requests[|requests| - 1].line == line)
  {
    var front := requests[..|requests| - 1];
    if IsRequested(requests, line) {
      var i :| 0 <= i < |requests| && requests[i].Ensure? && requests[i].line == line;
      assert i < |front| ==> front[i] == requests[i];
    }
    if IsRequested(front, line) {
      var i :| 0 <= i < |front| && front[i].Ensure? && front[i].line == line;
      assert requests[i] == front[i];
    }
  }

  /** Every line keeps its occurrences, a requested line that had none has one, and the original
      lines come first. */
  ghost predicate IsExtension(was: seq<string>, held: seq<string>, requests: seq<Request>) {
    && was <= held
    && forall line ::
         multiset(held)[line] == if IsRequested(requests, line) && line !in was then 1 else multiset(was)[line]
  }

  lemma ExtensionStep(was: seq<string>, held: seq<string>, requests: seq<Request>)
    requires |requests| > 0 && OnlyLines(requests) && IsExtension(was, held, requests[..|requests| - 1])
    ensures IsExtension(was, WithLine(held, requests[|requests| - 1].line), requests)
  {
    var last := requests[|requests| - 1].line;
    var held' := WithLine(held, last);
    assert held <= held';
    assert multiset(held + [last]) == multiset(held) + multiset{last};
    forall line
      ensures multiset(held')[line] == if IsRequested(requests, line) && line !in was then 1 else multiset(was)[line]
    {
      RequestedStep(requests, line);
      assert line in held <==> multiset(held)[line] > 0;
      assert line in was <==> multiset(was)[line] > 0;
    }
  }

  /** Required lines in any order and number. */
  lemma {:induction false} LinesInOrder(f: File, requests: seq<Request>)
    requires OnlyLines(requests)
    ensures IsExtension(Held(f), Held(InOrder(f, requests)), requests)
  {
    if |requests| > 0 {
      var front, last := requests[..|requests| - 1], requests[|requests| - 1];
      LinesInOrder(f, front);
      EnsureHolds(InOrder(f, front), last.line, last.mode);
      ExtensionStep(Held(f), Held(InOrder(f, front)), requests);
    }
  }

  function UpsertsOf(requests: seq<Request>): seq<Upsert>
    requires forall i :: 0 <= i < |requests| ==> requests[i].Export?
  {
    seq(|requests|, i requires 0 <= i < |requests| => requests[i].upsert)
  }

  lemma {:induction false} ExportsInOrder(f: File, requests: seq<Request>)
    requires forall i :: 0 <= i < |requests| ==> requests[i].Export?
    ensures InOrder(f, requests) == AfterAll(f, UpsertsOf(requests))
  {
    if |requests| > 0 {
      var front, upserts := requests[..|requests| - 1], UpsertsOf(requests);
      ExportsInOrder(f, front);
      assert upserts[..|upserts| - 1] == UpsertsOf(front);
      var g, u := InOrder(f, front), requests[|requests| - 1].upsert;
      assert upserts[|upserts| - 1] == u;
      assert AfterAll(f, upserts) == AfterUpsert(g, u.varName, u.value, u.mode);
    }
  }

  // ---------------------------------------------------------------- the lock

  /** A process between taking the lock and giving it back. */
  datatype Process = Idle | Started(request: Request) | Loaded(request: Request, seen: File) | Written(request: Request)

  /** `log` lists the requests in the order of their writes. */
  datatype System = System(file: File, holder: Option<int>, processes: map<int, Process>, log: seq<Request>)

  /** `Lock` is flock granted; `Proceed` is the fallback of a process that could not open the lock
      file; `Leave` gives the lock back, also when the process dies. */
  datatype Step =
    | Lock(p: int, request: Request)
    | Proceed(p: int, request: Request)
    | Load(p: int)
    | Write(p: int)
    | Leave(p: int)

  function ProcessOf(s: System, p: int): Process {
    if p in s.processes then s.processes[p] else Idle
  }

  predicate Enabled(s: System, step: Step) {
    match step
    case Lock(p, _) => s.holder.None? && ProcessOf(s, p).Idle?
    case Proceed(p, _) => ProcessOf(s, p).Idle?
    case Load(p) => ProcessOf(s, p).Started?
    case Write(p) => ProcessOf(s, p).Loaded?
    case Leave(p) => !ProcessOf(s, p).Idle?
  }

  function Apply(s: System, step: Step): System
    requires Enabled(s, step)
  {
    match step
    case Lock(p, r) => s.(holder := Some(p), processes := s.processes[p := Started(r)])
    case Proceed(p, r) => s.(processes := s.processes[p := Started(r)])
    case Load(p) => s.(processes := s.processes[p := Loaded(s.processes[p].request, s.file)])
    case Write(p) =>
      var r := s.processes[p].request;
      s.(file := Effect(s.processes[p].seen, r), processes := s.processes[p := Written(r)], log := s.log + [r])
    case Leave(p) =>
      s.(holder := if s.holder == Some(p) then None else s.holder, processes := s.processes[p := Idle])
  }

  predicate IsStep(s: System, step: Step, s': System) {
    Enabled(s, step) && s' == Apply(s, step)
  }

  predicate IsRun(states: seq<System>, steps: seq<Step>) {
    && |states| == |steps| + 1
    && forall i :: 0 <= i < |steps| ==> IsStep(states[i], steps[i], states[i + 1])
  }

  predicate IsStart(s: System) {
    s.holder.None? && s.log == [] && forall p :: p in s.processes ==> s.processes[p].Idle?
  }

  predicate EveryoneLocks(steps: seq<Step>) {
    forall i :: 0 <= i < |steps| ==> !steps[i].Proceed?
  }

  /** Only the lock's holder is at work, what it loaded is still the file, and the file is what the
      written requests make of the first one, one after the other. */
  predicate Inv(s: System, first: File) {
    && (forall p :: p in s.processes && !s.processes[p].Idle? ==> s.holder == Some(p))
    && (s.holder.Some? ==> !ProcessOf(s, s.holder.value).Idle?)
    && (forall p :: p in s.processes && s.processes[p].Loaded? ==> s.processes[p].seen == s.file)
    && (forall p :: p in s.processes && s.processes[p].Written? ==> s.processes[p].request in s.log)
    && s.file == InOrder(first, s.log)
  }

  lemma StepKeepsInv(s: System, step: Step, first: File)
    requires Inv(s, first) && Enabled(s, step) && !step.Proceed?
    ensures Inv(Apply(s, step), first)
  {
    var s' := Apply(s, step);
    if step.Write? {
      assert s'.log[..|s'.log| - 1] == s.log;
    }
  }

  /** Under the lock, every interleaving of any number of processes, including ones that die, leaves
      the file that the written requests would have left one after the other. */
  lemma {:induction false} Serializable(states: seq<System>, steps: seq<Step>, i: nat)
    requires IsRun(states, steps) && IsStart(states[0]) && EveryoneLocks(steps) && i < |states|
    ensures Inv(states[i], states[0].file)
  {
    if i > 0 {
      Serializable(states, steps, i - 1);
      assert IsStep(states[i - 1], steps[i - 1], states[i - 1 + 1]);
      StepKeepsInv(states[i - 1], steps[i - 1], states[0].file);
    }
  }

  /** The process has made sure of the line and is about to give the lock back. */
  predicate HasWritten(s: System, p: int, line: string) {
    ProcessOf(s, p).Written? && ProcessOf(s, p).request.Ensure? && ProcessOf(s, p).request.line == line
  }

  /** No lost updates: when the processes require lines, every original line and every required line
      is in the file, and none was appended twice. */
  lemma NoLostUpdates(states: seq<System>, steps: seq<Step>, i: nat)
    requires IsRun(states, steps) && IsStart(states[0]) && EveryoneLocks(steps) && i < |states|
    requires OnlyLines(states[i].log)
    ensures IsExtension(Held(states[0].file), Held(states[i].file), states[i].log)
    ensures forall p, line :: HasWritten(states[i], p, line) ==> line in Held(states[i].file)
  {
    Serializable(states, steps, i);
    LinesInOrder(states[0].file, states[i].log);
    var held := Held(states[i].file);
    forall p, line | HasWritten(states[i], p, line) ensures line in held {
      assert ProcessOf(states[i], p).request in states[i].log;
      assert IsRequested(states[i].log, line);
      assert multiset(held)[line] >= 1;
    }
  }

  /** The same for exports of single-line values: each variable has the value written last. */
  lemma LastExportWins(states: seq<System>, steps: seq<Step>, i: nat, varName: string)
    requires IsRun(states, steps) && IsStart(states[0]) && EveryoneLocks(steps) && i < |states|
    requires forall j :: 0 <= j < |states[i].log| ==> states[i].log[j].Export?
    requires AreSingleLine(UpsertsOf(states[i].log)) && IsClean(states[0].file) && IsName(varName)
    ensures Matching(Lines(TextOf(states[i].file)), varName)
         == match LastValue(UpsertsOf(states[i].log), varName)
            case None => Matching(Lines(TextOf(states[0].file)), varName)
            case Some(value) => if value == "" then [] else [ShellQuote.Rendered(varName, value)]
  {
    Serializable(states, steps, i);
    ExportsInOrder(states[0].file, states[i].log);
    LastUpsertWins(states[0].file, UpsertsOf(states[i].log), varName);
  }
}
