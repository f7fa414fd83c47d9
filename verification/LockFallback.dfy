/** Processes that edit one file and may proceed without its lock when they cannot open the lock file. */
module LockFallback {
  import opened Text
  import opened HostFiles
  import opened SharedFile

  // ---------------------------------------------------------------- a lost edit

  /** Two processes at work. */
  function Racing(file: File, holder: Option<int>, a: int, pa: Process, b: int, pb: Process, log: seq<Request>): System
  {
    System(file, holder, map[a := pa, b := pb], log)
  }

  /** How a process that gets the lock begins, and one that falls back. */
  function BeginStep(p: int, locks: bool, r: Request): Step {
    if locks then Lock(p, r) else Proceed(p, r)
  }

  function HolderAfter(holder: Option<int>, p: int, locks: bool): Option<int> {
    if locks then Some(p) else holder
  }

  /** The system with one process in a new state. */
  function Turn(s: System, file: File, holder: Option<int>, p: int, to: Process, log: seq<Request>): System {
    System(file, holder, s.processes[p := to], log)
  }

  lemma TurnOfRacing(s: System, a: int, pa: Process, b: int, pb: Process, to: Process)
    requires a != b && s.processes == map[a := pa, b := pb]
    ensures s.processes[a := to] == map[a := to, b := pb]
    ensures s.processes[b := to] == map[a := pa, b := to]
  {
  }

  lemma BeginIsStep(s: System, p: int, locks: bool, r: Request)
    requires p in s.processes && s.processes[p].Idle? && (locks ==> s.holder.None?)
    ensures IsStep(s, BeginStep(p, locks, r), Turn(s, s.file, HolderAfter(s.holder, p, locks), p, Started(r), s.log))
  {
  }

  lemma LoadIsStep(s: System, p: int, r: Request)
    requires p in s.processes && s.processes[p] == Started(r)
    ensures IsStep(s, Load(p), Turn(s, s.file, s.holder, p, Loaded(r, s.file), s.log))
  {
  }

  lemma WriteIsStep(s: System, p: int, r: Request, seen: File)
    requires p in s.processes && s.processes[p] == Loaded(r, seen)
    ensures IsStep(s, Write(p), Turn(s, Effect(seen, r), s.holder, p, Written(r), s.log + [r]))
  {
  }

  lemma SixStepRun(states: seq<System>, steps: seq<Step>)
    requires |steps| == 6 && |states| == 7
    requires IsStep(states[0], steps[0], states[1]) && IsStep(states[1], steps[1], states[2])
    requires IsStep(states[2], steps[2], states[3]) && IsStep(states[3], steps[3], states[4])
    requires IsStep(states[4], steps[4], states[5]) && IsStep(states[5], steps[5], states[6])
    ensures IsRun(states, steps)
  {
  }

  function RaceSteps(a: int, la: bool, ra: Request, b: int, lb: bool, rb: Request): seq<Step> {
    [BeginStep(a, la, ra), BeginStep(b, lb, rb), Load(a), Load(b), Write(a), Write(b)]
  }

  /** The lock protects nobody from a process that falls back, not even its holder: of two processes
      not both of which lock, either may finish first and have its edit lost, whatever the edits. */
  lemma FallbackRun(file: File, a: int, la: bool, ra: Request, b: int, lb: bool, rb: Request)
    returns (states: seq<System>)
    requires a != b && !(la && lb)
    ensures IsRun(states, RaceSteps(a, la, ra, b, lb, rb)) && IsStart(states[0]) && states[0].file == file
    ensures states[6].log == [ra, rb] && states[6].file == Effect(file, rb)
    ensures states[6].holder == if la then Some(a) else if lb then Some(b) else None
  {
    var ha := HolderAfter(None, a, la);
    var hb := HolderAfter(ha, b, lb);
    var s0 := Racing(file, None, a, Idle, b, Idle, []);
    var s1 := Racing(file, ha, a, Started(ra), b, Idle, []);
    var s2 := Racing(file, hb, a, Started(ra), b, Started(rb), []);
    var s3 := Racing(file, hb, a, Loaded(ra, file), b, Started(rb), []);
    var s4 := Racing(file, hb, a, Loaded(ra, file), b, Loaded(rb, file), []);
    var s5 := Racing(Effect(file, ra), hb, a, Written(ra), b, Loaded(rb, file), [ra]);
    var s6 := Racing(Effect(file, rb), hb, a, Written(ra), b, Written(rb), [ra, rb]);
    BeginIsStep(s0, a, la, ra);
    TurnOfRacing(s0, a, Idle, b, Idle, Started(ra));
    BeginIsStep(s1, b, lb, rb);
    TurnOfRacing(s1, a, Started(ra), b, Idle, Started(rb));
    LoadIsStep(s2, a, ra);
    TurnOfRacing(s2, a, Started(ra), b, Started(rb), Loaded(ra, file));
    LoadIsStep(s3, b, rb);
    TurnOfRacing(s3, a, Loaded(ra, file), b, Started(rb), Loaded(rb, file));
    WriteIsStep(s4, a, ra, file);
    TurnOfRacing(s4, a, Loaded(ra, file), b, Loaded(rb, file), Written(ra));
    WriteIsStep(s5, b, rb, file);
    TurnOfRacing(s5, a, Written(ra), b, Loaded(rb, file), Written(rb));
    assert [] + [ra] == [ra] && [ra] + [rb] == [ra, rb];
    states := [s0, s1, s2, s3, s4, s5, s6];
    SixStepRun(states, RaceSteps(a, la, ra, b, lb, rb));
  }

  /** For example, of two required lines only the second is left. */
  lemma FallbackLosesUpdate(a: int, la: bool, b: int, lb: bool) returns (states: seq<System>)
    requires a != b && !(la && lb)
    ensures IsRun(states, RaceSteps(a, la, Ensure("a", 0), b, lb, Ensure("b", 0))) && IsStart(states[0])
    ensures states[6].log == [Ensure("a", 0), Ensure("b", 0)] && "a" !in Held(states[6].file)
    ensures states[6].file != InOrder(states[0].file, states[6].log)
  {
    var ra, rb := Ensure("a", 0), Ensure("b", 0);
    states := FallbackRun(Missing, a, la, ra, b, lb, rb);
    HeldOfMissing();
    EnsureHolds(Missing, "a", 0);
    EnsureHolds(Missing, "b", 0);
    assert "a"[0] != "b"[0];
    assert Held(states[6].file) == ["b"];
    InOrderOfTwo(Missing, ra, rb);
    EnsureHolds(AfterEnsure(Missing, "a", 0), "b", 0);
  }

  lemma InOrderOfTwo(f: File, ra: Request, rb: Request)
    ensures InOrder(f, [ra, rb]) == Effect(Effect(f, ra), rb)
  {
    assert [ra, rb][..1] == [ra] && [ra][..0] == [];
    assert InOrder(f, [ra]) == Effect(InOrder(f, []), ra);
    assert InOrder(f, [ra, rb]) == Effect(InOrder(f, [ra, rb][..1]), rb);
  }

  // ---------------------------------------------------------------- when the lock suffices

  /** Only these processes act, and only those in `fallback` ever proceed without the lock. */
  predicate ActsWithin(steps: seq<Step>, procs: set<int>, fallback: set<int>) {
    forall i :: 0 <= i < |steps| ==>
      match steps[i]
      case Lock(p, _) => p in procs
      case Proceed(p, _) => p in procs && p in fallback
      case _ => true
  }

  ghost predicate SerialIn(procs: set<int>, fallback: set<int>, states: seq<System>, steps: seq<Step>, i: nat) {
    IsRun(states, steps) && IsStart(states[0]) && ActsWithin(steps, procs, fallback) && i < |states|
    ==> states[i].file == InOrder(states[0].file, states[i].log)
  }

  /** Every run leaves what the written requests make of the file one after the other. */
  ghost predicate AlwaysSerial(procs: set<int>, fallback: set<int>) {
    forall states: seq<System>, steps: seq<Step>, i: nat :: SerialIn(procs, fallback, states, steps, i)
  }

  /** A process by itself is never disturbed. */
  predicate AloneInv(s: System, procs: set<int>, first: File) {
    && (forall p :: p in s.processes && !s.processes[p].Idle? ==> p in procs)
    && (forall p :: p in s.processes && s.processes[p].Loaded? ==> s.processes[p].seen == s.file)
    && s.file == InOrder(first, s.log)
  }

  lemma AloneStep(s: System, step: Step, procs: set<int>, fallback: set<int>, first: File)
    requires AloneInv(s, procs, first) && Enabled(s, step) && ActsWithin([step], procs, fallback)
    requires forall p, q :: p in procs && q in procs ==> p == q
    ensures AloneInv(Apply(s, step), procs, first)
  {
    var s' := Apply(s, step);
    assert [step][0] == step;
    if step.Write? {
      assert s'.log[..|s'.log| - 1] == s.log;
    }
  }

  lemma {:induction false} AloneRun(states: seq<System>, steps: seq<Step>, procs: set<int>, fallback: set<int>, i: nat)
    requires IsRun(states, steps) && IsStart(states[0]) && ActsWithin(steps, procs, fallback) && i < |states|
    requires forall p, q :: p in procs && q in procs ==> p == q
    ensures AloneInv(states[i], procs, states[0].file)
  {
    if i > 0 {
      AloneRun(states, steps, procs, fallback, i - 1);
      assert IsStep(states[i - 1], steps[i - 1], states[i - 1 + 1]);
      assert [steps[i - 1]][0] == steps[i - 1];
      AloneStep(states[i - 1], steps[i - 1], procs, fallback, states[0].file);
    }
  }

  lemma AtMostOne(procs: set<int>, p: int, q: int)
    requires |procs| <= 1 && p in procs && q in procs
    ensures p == q
  {
    if p != q {
      assert {p, q} <= procs;
      SubsetSize({p, q}, procs);
    }
  }

  lemma {:induction false} SubsetSize<T>(a: set<T>, b: set<T>)
    requires a <= b
    ensures |a| <= |b|
  {
    if x :| x in a {
      SubsetSize(a - {x}, b - {x});
    } else {
      assert a == {};
    }
  }

  /** Edits are never lost exactly when no process of those at work may fall back, or only one is at
      work: one process that falls back is enough to break the lock for all. */
  lemma AlwaysSerialIff(procs: set<int>, fallback: set<int>)
    ensures AlwaysSerial(procs, fallback) <==> procs * fallback == {} || |procs| <= 1
  {
    if forall p :: p in procs ==> p !in fallback {
      assert procs * fallback == {};
      forall states: seq<System>, steps: seq<Step>, i: nat ensures SerialIn(procs, fallback, states, steps, i) {
        if IsRun(states, steps) && IsStart(states[0]) && ActsWithin(steps, procs, fallback) && i < |states| {
          NobodyFallsBack(steps, procs, fallback);
          Serializable(states, steps, i);
        }
      }
    } else if |procs| <= 1 {
      forall p, q | p in procs && q in procs ensures p == q {
        AtMostOne(procs, p, q);
      }
      forall states: seq<System>, steps: seq<Step>, i: nat ensures SerialIn(procs, fallback, states, steps, i) {
        if IsRun(states, steps) && IsStart(states[0]) && ActsWithin(steps, procs, fallback) && i < |states| {
          AloneRun(states, steps, procs, fallback, i);
        }
      }
    } else {
      var q :| q in procs && q in fallback;
      assert q in procs * fallback;
      var p := AnotherOne(procs, q);
      var states := FallbackLosesUpdate(p, true, q, false);
      var steps := RaceSteps(p, true, Ensure("a", 0), q, false, Ensure("b", 0));
      assert ActsWithin(steps, procs, fallback);
      assert !SerialIn(procs, fallback, states, steps, 6);
    }
  }

  lemma NobodyFallsBack(steps: seq<Step>, procs: set<int>, fallback: set<int>)
    requires (forall p :: p in procs ==> p !in fallback) && ActsWithin(steps, procs, fallback)
    ensures EveryoneLocks(steps)
  {
  }

  lemma OnlyOne<T>(procs: set<T>, q: T)
    requires q in procs && forall p :: p in procs ==> p == q
    ensures |procs| == 1
  {
    assert procs == {q};
  }

  lemma AnotherOne(procs: set<int>, q: int) returns (p: int)
    requires q in procs && |procs| > 1
    ensures p in procs && p != q
  {
    if forall p :: p in procs ==> p == q {
      OnlyOne(procs, q);
    }
    p :| p in procs && p != q;
  }
}
