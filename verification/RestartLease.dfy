/** The control-plane restart Lease: one master at a time, without renewal, self-expiring.

    Times are microseconds on one shared clock. Stamping RenewTime, reading the lease, checking its
    expiry and writing it are separate steps; a write carries the version it was read at. */
module RestartLease {
  import opened Text

  /** An empty holder is a free lease; missing times make a held lease never expire. */
  datatype Lease = Lease(version: nat, holder: string, renew: Option<int>, seconds: Option<int>)

  const MICROS: int := 1_000_000
  const HOUR: int := 3600 * MICROS

  function Expiry(renew: int, seconds: int): int {
    renew + seconds * MICROS
  }

  predicate HeldByOther(lease: Lease, holder: string, now: int) {
    if lease.holder == "" || lease.holder == holder then false
    else if lease.renew.None? || lease.seconds.None? then true
    else now < Expiry(lease.renew.value, lease.seconds.value)
  }

  /** Who is in the way: another holder without both times, or one whose RenewTime plus duration, in
      microseconds, has not come yet. */
  lemma HeldByOtherIff(lease: Lease, holder: string, now: int)
    ensures HeldByOther(lease, holder, now)
       <==> lease.holder != "" && lease.holder != holder
            && (lease.renew.None? || lease.seconds.None? || now < lease.renew.value + lease.seconds.value * 1_000_000)
  {
  }

  // ---------------------------------------------------------------- writes

  datatype Write = Create(lease: Lease) | Update(lease: Lease)

  function Commit(lease: Option<Lease>, w: Write): (r: (Option<Lease>, bool)) {
    match w
    case Create(l) => if lease.None? then (Some(l.(version := 1)), true) else (lease, false)
    case Update(l) =>
      if lease.Some? && lease.value.version == l.version
      then (Some(l.(version := l.version + 1)), true)
      else (lease, false)
  }

  /** The write of one acquisition attempt whose RenewTime was stamped before the read. */
  function AcquireWrite(seen: Option<Lease>, holder: string, stamp: int, seconds: int): Write {
    match seen
    case None => Create(Lease(0, holder, Some(stamp), Some(seconds)))
    case Some(l) => Update(l.(holder := holder, renew := Some(stamp), seconds := Some(seconds)))
  }

  function ReleaseWrite(seen: Lease, now: int): Write {
    Update(seen.(holder := "", renew := Some(now - HOUR)))
  }

  // ---------------------------------------------------------------- masters

  datatype Pc =
    | Outside
    | Stamped(stamp: int, seconds: int)
    | Seen(stamp: int, seconds: int, lease: Option<Lease>)
    | Cleared(stamp: int, seconds: int, lease: Option<Lease>)
    | Inside(stamp: int, seconds: int)
    | Releasing
    | ReleaseSeen(own: Lease)

  datatype System = System(now: int, lease: Option<Lease>, masters: map<string, Pc>)

  datatype Step =
    | Tick(now: int)
    | Stamp(m: string, seconds: int)
    | Read(m: string)
    | Check(m: string)
    | Write(m: string)
    | Leave(m: string)
    | Crash(m: string)

  predicate Init(s: System) {
    && (forall m | m in s.masters :: m != "" && s.masters[m].Outside?)
  }

  predicate Enabled(s: System, step: Step) {
    match step
    case Tick(now) => now >= s.now
    case Stamp(m, _) => m in s.masters && s.masters[m].Outside?
    case Read(m) => m in s.masters && (s.masters[m].Stamped? || s.masters[m].Releasing?)
    case Check(m) => m in s.masters && s.masters[m].Seen?
    case Write(m) => m in s.masters && (s.masters[m].Cleared? || s.masters[m].ReleaseSeen?)
    case Leave(m) => m in s.masters && s.masters[m].Inside?
    case Crash(m) => m in s.masters
  }

  /** One step. A busy lease and a lost race end the attempt; the caller polls or retries by
      stamping again. A release that loses a race reads again. */
  function Apply(s: System, step: Step): System
    requires Enabled(s, step)
  {
    match step
    case Tick(now) => s.(now := now)
    case Stamp(m, seconds) => s.(masters := s.masters[m := Stamped(s.now, seconds)])
    case Read(m) =>
      (match s.masters[m]
       case Stamped(stamp, seconds) => s.(masters := s.masters[m := Seen(stamp, seconds, s.lease)])
       case _ =>
         s.(masters := s.masters[m :=
           if s.lease.None? || s.lease.value.holder != m then Outside else ReleaseSeen(s.lease.value)]))
    case Check(m) =>
      var Seen(stamp, seconds, lease) := s.masters[m];
      s.(masters := s.masters[m :=
        if lease.Some? && HeldByOther(lease.value, m, s.now) then Outside else Cleared(stamp, seconds, lease)])
    case Write(m) =>
      (match s.masters[m]
       case Cleared(stamp, seconds, lease) =>
         var r := Commit(s.lease, AcquireWrite(lease, m, stamp, seconds));
         System(s.now, r.0, s.masters[m := if r.1 then Inside(stamp, seconds) else Outside])
       case ReleaseSeen(lease) =>
         var r := Commit(s.lease, ReleaseWrite(lease, s.now));
         System(s.now, r.0, s.masters[m := if r.1 then Outside else Releasing])
       case _ => s)
    case Leave(m) => s.(masters := s.masters[m := Releasing])
    case Crash(m) => s.(masters := s.masters[m := Outside])
  }

  // ---------------------------------------------------------------- mutual exclusion

  /** The assumption the lease duration is chosen for: whoever is in the restart section is there
      before its own recorded RenewTime plus duration. */
  predicate Timely(s: System) {
    forall m | m in s.masters && s.masters[m].Inside? :: s.now < Expiry(s.masters[m].stamp, s.masters[m].seconds)
  }

  predicate Exclusive(s: System) {
    forall m, n | m in s.masters && n in s.masters && s.masters[m].Inside? && s.masters[n].Inside? :: m == n
  }

  predicate IsPast(seen: Option<Lease>, lease: Option<Lease>) {
    seen.Some? ==>
      && lease.Some? && seen.value.version <= lease.value.version
      && (seen.value.version == lease.value.version ==> seen == lease)
  }

  /** What a master read is the lease as it is or as it was; it gives back only what it read as its own. */
  predicate ReadSound(s: System, m: string, pc: Pc) {
    match pc
    case Seen(_, _, lease) => IsPast(lease, s.lease)
    case Cleared(_, _, lease) => IsPast(lease, s.lease)
    case ReleaseSeen(own) => IsPast(Some(own), s.lease) && own.holder == m
    case _ => true
  }

  predicate ReadsSound(s: System) {
    forall m | m in s.masters :: ReadSound(s, m, s.masters[m])
  }

  predicate MasterSound(s: System, m: string, pc: Pc) {
    && ReadSound(s, m, pc)
    && match pc
       case Cleared(_, _, lease) => lease.Some? ==> !HeldByOther(lease.value, m, s.now)
       case Inside(stamp, seconds) =>
         s.lease.Some? && s.lease.value.holder == m
         && s.lease.value.renew == Some(stamp) && s.lease.value.seconds == Some(seconds)
       case _ => true
  }

  /** A master inside the section is recorded in the lease with its own times. */
  predicate Inv(s: System) {
    forall m | m in s.masters :: m != "" && MasterSound(s, m, s.masters[m])
  }

  lemma InvIsExclusive(s: System)
    requires Inv(s)
    ensures Exclusive(s)
  {
    forall m, n | m in s.masters && n in s.masters && s.masters[m].Inside? && s.masters[n].Inside?
      ensures m == n
    {
      assert MasterSound(s, m, s.masters[m]) && MasterSound(s, n, s.masters[n]);
    }
  }

  /** Nobody else is inside when a write goes through. */
  lemma WriteFindsSectionEmpty(s: System, m: string)
    requires Inv(s) && Timely(s) && Enabled(s, Write(m))
    requires Apply(s, Write(m)).lease != s.lease
    ensures forall n | n in s.masters && n != m :: !s.masters[n].Inside?
  {
    assert MasterSound(s, m, s.masters[m]);
    forall n | n in s.masters && n != m ensures !s.masters[n].Inside? {
      assert n != "" && MasterSound(s, n, s.masters[n]);
    }
  }

  lemma StepKeepsInv(s: System, step: Step)
    requires Inv(s) && Timely(s) && Enabled(s, step)
    ensures Inv(Apply(s, step))
  {
    var s' := Apply(s, step);
    if step.Write? && s'.lease != s.lease {
      WriteFindsSectionEmpty(s, step.m);
    }
    assert IsPast(s.lease, s'.lease);
    forall m | m in s'.masters ensures m != "" && MasterSound(s', m, s'.masters[m]) {
      assert m in s.masters && m != "" && MasterSound(s, m, s.masters[m]);
    }
  }

  predicate IsStep(s: System, step: Step, s': System) {
    Enabled(s, step) && s' == Apply(s, step)
  }

  predicate IsRun(systems: seq<System>, steps: seq<Step>) {
    IsChain(systems, steps) && Init(systems[0])
  }

  predicate IsChain(systems: seq<System>, steps: seq<Step>) {
    && |systems| == |steps| + 1
    && forall i :: 0 <= i < |steps| ==> IsStep(systems[i], steps[i], systems[i + 1])
  }

  lemma {:induction false} RunKeepsInv(systems: seq<System>, steps: seq<Step>, i: nat)
    requires IsRun(systems, steps) && i < |systems|
    requires forall j :: 0 <= j < i ==> Timely(systems[j])
    ensures Inv(systems[i])
  {
    if i > 0 {
      RunKeepsInv(systems, steps, i - 1);
      assert IsStep(systems[i - 1], steps[i - 1], systems[i - 1 + 1]);
      StepKeepsInv(systems[i - 1], steps[i - 1]);
    }
  }

  /** Never two masters in the restart section, for any number of masters and any interleaving, as
      long as everyone inside so far was there before its stamp plus its seconds, in microseconds. */
  lemma MutualExclusion(systems: seq<System>, steps: seq<Step>, i: nat)
    requires IsRun(systems, steps) && i < |systems|
    requires forall j, m :: 0 <= j < i && m in systems[j].masters && systems[j].masters[m].Inside? ==>
      systems[j].now < systems[j].masters[m].stamp + systems[j].masters[m].seconds * 1_000_000
    ensures forall m, n | m in systems[i].masters && n in systems[i].masters ::
      systems[i].masters[m].Inside? && systems[i].masters[n].Inside? ==> m == n
  {
    forall j | 0 <= j < i ensures Timely(systems[j]) {
    }
    RunKeepsInv(systems, steps, i);
    InvIsExclusive(systems[i]);
  }

  /** A holder inside is protected to the microsecond: in every run in which holders were in time so
      far, a check of the present lease by another master sends it away strictly before the holder's
      stamp plus seconds, and lets it through from then on. */
  lemma CheckAgainstHolder(systems: seq<System>, steps: seq<Step>, i: nat, m: string, n: string)
    requires IsRun(systems, steps) && i < |steps| && steps[i] == Check(n) && m != n
    requires forall j, k :: 0 <= j < i && k in systems[j].masters && systems[j].masters[k].Inside? ==>
      systems[j].now < systems[j].masters[k].stamp + systems[j].masters[k].seconds * 1_000_000
    requires m in systems[i].masters && systems[i].masters[m].Inside?
    requires n in systems[i].masters && systems[i].masters[n].Seen? && systems[i].masters[n].lease == systems[i].lease
    ensures var window := systems[i].masters[m].stamp + systems[i].masters[m].seconds * 1_000_000;
            && n in systems[i + 1].masters
            && (systems[i].now < window ==> systems[i + 1].masters[n].Outside?)
            && (systems[i].now >= window ==> systems[i + 1].masters[n].Cleared?)
  {
    forall j | 0 <= j < i ensures Timely(systems[j]) {
    }
    RunKeepsInv(systems, steps, i);
    assert IsStep(systems[i], steps[i], systems[i + 1]);
    assert m != "" && MasterSound(systems[i], m, systems[i].masters[m]);
    HeldByOtherIff(systems[i].lease.value, n, systems[i].now);
  }

  lemma StepKeepsReads(s: System, step: Step)
    requires ReadsSound(s) && Enabled(s, step)
    ensures ReadsSound(Apply(s, step))
  {
    var s' := Apply(s, step);
    assert IsPast(s.lease, s'.lease);
    forall m | m in s'.masters ensures ReadSound(s', m, s'.masters[m]) {
      assert m in s.masters && ReadSound(s, m, s.masters[m]);
    }
  }

  lemma {:induction false} RunKeepsReads(systems: seq<System>, steps: seq<Step>, i: nat)
    requires IsRun(systems, steps) && i < |systems|
    ensures ReadsSound(systems[i])
  {
    if i > 0 {
      RunKeepsReads(systems, steps, i - 1);
      assert IsStep(systems[i - 1], steps[i - 1], systems[i - 1 + 1]);
      StepKeepsReads(systems[i - 1], steps[i - 1]);
    }
  }

  /** In every run, stale holders included, a release changes the lease exactly when the lease is
      still the one the releaser read as its own: it never frees one that someone else holds by then. */
  lemma ReleaseFreesOnlyOwn(systems: seq<System>, steps: seq<Step>, i: nat, m: string)
    requires IsRun(systems, steps) && i < |steps| && steps[i] == Write(m)
    requires m in systems[i].masters && systems[i].masters[m].ReleaseSeen?
    ensures systems[i].masters[m].own.holder == m
    ensures systems[i + 1].lease != systems[i].lease <==> systems[i].lease == Some(systems[i].masters[m].own)
  {
    RunKeepsReads(systems, steps, i);
    assert ReadSound(systems[i], m, systems[i].masters[m]);
    assert IsStep(systems[i], steps[i], systems[i + 1]);
  }

  // ---------------------------------------------------------------- entering

  lemma FourSteps(systems: seq<System>, steps: seq<Step>)
    requires |steps| == 4 && |systems| == 5
    requires IsStep(systems[0], steps[0], systems[1]) && IsStep(systems[1], steps[1], systems[2])
    requires IsStep(systems[2], steps[2], systems[3]) && IsStep(systems[3], steps[3], systems[4])
    ensures IsChain(systems, steps)
  {
  }

  /** The system with one master's record replaced. */
  function WithPc(s: System, n: string, pc: Pc): System {
    s.(masters := s.masters[n := pc])
  }

  lemma WithPcTwice(s: System, n: string, a: Pc, b: Pc)
    ensures WithPc(WithPc(s, n, a), n, b) == WithPc(s, n, b)
  {
    assert s.masters[n := a][n := b] == s.masters[n := b];
  }

  function EnterSteps(n: string, seconds: int): seq<Step> {
    [Stamp(n, seconds), Read(n), Check(n), Write(n)]
  }

  /** A master that finds the lease missing, free, its own or expired enters in four steps of its
      own, and nothing else changes. */
  lemma FreeLeaseIsTaken(s: System, n: string, seconds: int) returns (systems: seq<System>)
    requires n in s.masters && s.masters[n].Outside?
    requires s.lease.Some? ==> !HeldByOther(s.lease.value, n, s.now)
    ensures IsChain(systems, EnterSteps(n, seconds)) && systems[0] == s
    ensures systems[4].masters == s.masters[n := Inside(s.now, seconds)] && systems[4].now == s.now
    ensures systems[4].lease.Some? && systems[4].lease.value.holder == n
         && systems[4].lease.value.renew == Some(s.now) && systems[4].lease.value.seconds == Some(seconds)
  {
    var stamped, seen := Stamped(s.now, seconds), Seen(s.now, seconds, s.lease);
    var cleared := Cleared(s.now, seconds, s.lease);
    var s1, s2, s3 := WithPc(s, n, stamped), WithPc(s, n, seen), WithPc(s, n, cleared);
    var s4 := Apply(s3, Write(n));
    WithPcTwice(s, n, stamped, seen);
    WithPcTwice(s, n, seen, cleared);
    WithPcTwice(s, n, cleared, Inside(s.now, seconds));
    systems := [s, s1, s2, s3, s4];
    assert IsStep(s, Stamp(n, seconds), s1);
    assert IsStep(s1, Read(n), s2);
    assert IsStep(s2, Check(n), s3);
    FourSteps(systems, EnterSteps(n, seconds));
  }

  lemma PrependTick(s: System, now: int, systems: seq<System>, steps: seq<Step>)
    requires now >= s.now && IsChain(systems, steps) && systems[0] == s.(now := now)
    ensures IsChain([s] + systems, [Tick(now)] + steps)
  {
    var all, moves := [s] + systems, [Tick(now)] + steps;
    forall i | 0 <= i < |moves| ensures IsStep(all[i], moves[i], all[i + 1]) {
      if i > 0 {
        assert IsStep(systems[i - 1], steps[i - 1], systems[i - 1 + 1]);
      }
    }
  }

  /** A lease of someone else without both times: only its holder can free it. */
  predicate NeverExpires(lease: Option<Lease>, n: string) {
    && lease.Some? && lease.value.holder != "" && lease.value.holder != n
    && (lease.value.renew.None? || lease.value.seconds.None?)
  }

  /** Time passes and `n` acts; every other master may have crashed. */
  predicate Alone(steps: seq<Step>, n: string) {
    forall i :: 0 <= i < |steps| ==> steps[i].Tick? || steps[i].m == n
  }

  ghost predicate CanEnterAlone(s: System, n: string) {
    exists systems: seq<System>, steps: seq<Step> :: EntersBy(s, n, systems, steps)
  }

  predicate EntersBy(s: System, n: string, systems: seq<System>, steps: seq<Step>) {
    && IsChain(systems, steps) && systems[0] == s && Alone(steps, n)
    && n in systems[|steps|].masters && systems[|steps|].masters[n].Inside?
  }

  /** What `n` can know while the lease of someone else never expires. */
  predicate Barred(s: System, n: string, lease: Option<Lease>) {
    && s.lease == lease && n in s.masters
    && match s.masters[n]
       case Outside => true
       case Stamped(_, _) => true
       case Seen(_, _, seen) => seen == lease
       case _ => false
  }

  lemma {:induction false} BarredAlone(systems: seq<System>, steps: seq<Step>, n: string, i: nat)
    requires IsChain(systems, steps) && Alone(steps, n) && i < |systems|
    requires NeverExpires(systems[0].lease, n) && n in systems[0].masters && systems[0].masters[n].Outside?
    ensures Barred(systems[i], n, systems[0].lease)
  {
    if i > 0 {
      BarredAlone(systems, steps, n, i - 1);
      assert IsStep(systems[i - 1], steps[i - 1], systems[i - 1 + 1]);
    }
  }

  /** A crashed holder cannot wedge the cluster: with nobody else moving, a master outside gets in
      at some later time, exactly unless the lease is someone else's and lacks one of its times.
      Every lease this code writes has both. */
  lemma EntersAloneIff(s: System, n: string)
    requires n in s.masters && s.masters[n].Outside?
    ensures CanEnterAlone(s, n) <==> !NeverExpires(s.lease, n)
  {
    if NeverExpires(s.lease, n) {
      forall systems: seq<System>, steps: seq<Step> ensures !EntersBy(s, n, systems, steps) {
        if IsChain(systems, steps) && systems[0] == s && Alone(steps, n) {
          BarredAlone(systems, steps, n, |steps|);
        }
      }
    } else {
      var later := if s.lease.Some? && s.lease.value.renew.Some? && s.lease.value.seconds.Some?
                   then Expiry(s.lease.value.renew.value, s.lease.value.seconds.value) else s.now;
      var now := if later > s.now then later else s.now;
      var after := FreeLeaseIsTaken(s.(now := now), n, 1);
      PrependTick(s, now, after, EnterSteps(n, 1));
      var systems, steps := [s] + after, [Tick(now)] + EnterSteps(n, 1);
      assert systems[|steps|] == after[4];
      assert EntersBy(s, n, systems, steps);
    }
  }

  // ---------------------------------------------------------------- overstaying

  /** The assumption of timely holders cannot be dropped: wherever the invariant holds and someone
      is still inside past its window, any master outside can enter as well. */
  lemma OverstayBreaksExclusion(s: System, m: string, n: string, seconds: int) returns (systems: seq<System>)
    requires Inv(s) && m in s.masters && s.masters[m].Inside?
    requires s.now >= s.masters[m].stamp + s.masters[m].seconds * 1_000_000
    requires n in s.masters && s.masters[n].Outside?
    ensures IsChain(systems, EnterSteps(n, seconds)) && systems[0] == s
    ensures systems[4].masters == s.masters[n := Inside(s.now, seconds)] && !Exclusive(systems[4])
  {
    assert MasterSound(s, m, s.masters[m]);
    systems := FreeLeaseIsTaken(s, n, seconds);
    assert systems[4].masters[m].Inside? && systems[4].masters[n].Inside?;
  }

  /** And such a state is reached: any master enters, and stays past its window. */
  lemma OverstayIsReached(s: System, m: string, seconds: int) returns (systems: seq<System>)
    requires Init(s) && s.lease.None? && m in s.masters
    ensures IsRun(systems, EnterSteps(m, seconds) + [Tick(s.now + Max(0, seconds) * MICROS)]) && systems[0] == s
    ensures Inv(systems[5]) && systems[5].masters == s.masters[m := Inside(s.now, seconds)]
    ensures systems[5].now >= s.now + seconds * 1_000_000
  {
    var entered := FreeLeaseIsTaken(s, m, seconds);
    var now := s.now + Max(0, seconds) * MICROS;
    systems := entered + [entered[4].(now := now)];
    var steps := EnterSteps(m, seconds) + [Tick(now)];
    forall i | 0 <= i < |steps| ensures IsStep(systems[i], steps[i], systems[i + 1]) {
      if i < 4 {
        assert IsStep(entered[i], EnterSteps(m, seconds)[i], entered[i + 1]);
      }
    }
  }

  function Max(a: int, b: int): int {
    if a > b then a else b
  }

  // ---------------------------------------------------------------- the client code

  /** The lease object and the clock as one master sees them. */
  class LeaseApi {
    var lease: Option<Lease>
    var now: int
    var ended: bool

    constructor (lease: Option<Lease>, now: int, ended: bool)
      ensures this.lease == lease && this.now == now && this.ended == ended
    {
      this.lease, this.now, this.ended := lease, now, ended;
    }

    /** Between two calls of this master, time passes and other masters may act. */
    method Interfere()
      modifies this
      ensures IsPast(old(lease), lease) && now >= old(now)
    {
    }

    /** Sleeping until the next poll, unless the context has ended (`ended`) first. */
    method Pause(wait: int) returns (cancelled: bool)
      requires wait > 0
      modifies this
      ensures IsPast(old(lease), lease) && now >= old(now)
      ensures cancelled == ended
      ensures !cancelled ==> now >= old(now) + wait
    {
      cancelled := ended;
      if !cancelled {
        now := now + wait;
      }
    }

    method Submit(w: Write) returns (accepted: bool)
      modifies this`lease
      ensures (lease, accepted) == Commit(old(lease), w)
    {
      var r := Commit(lease, w);
      lease, accepted := r.0, r.1;
    }
  }

  datatype Outcome = Acquired | Busy | AlreadyExists | Conflict

  const RETRY_STEPS: nat := 5

  /** tryAcquireLease: a conflict retries from a new stamp. The lease was taken at one instant, on
      the object `at`, which was free or expired when checked; the recorded RenewTime was stamped
      within this call. An attempt that does not acquire leaves the lease as others left it. */
  method TryAcquireLease(api: LeaseApi, holder: string, seconds: int)
    returns (out: Outcome, stamp: int, checked: int, ghost at: Option<Lease>)
    modifies api
    ensures IsPast(old(api.lease), at) && old(api.now) <= api.now
    ensures out == Acquired ==>
      && api.lease == Commit(at, AcquireWrite(at, holder, stamp, seconds)).0
      && api.lease.Some? && api.lease.value.holder == holder
      && api.lease.value.renew == Some(stamp) && api.lease.value.seconds == Some(seconds)
      && old(api.now) <= stamp <= checked <= api.now
      && (at.Some? && at.value.holder != "" && at.value.holder != holder ==>
           at.value.renew.Some? && at.value.seconds.Some?
           && checked >= at.value.renew.value + at.value.seconds.value * 1_000_000)
    ensures out != Acquired ==> api.lease == at
    ensures out == Busy ==>
      && at.Some? && at.value.holder != "" && at.value.holder != holder
      && (at.value.renew.Some? && at.value.seconds.Some? ==>
           checked < at.value.renew.value + at.value.seconds.value * 1_000_000)
    // five conflicts are five writes of other clients
    ensures out == Conflict ==> api.lease.Some? && api.lease.value.version >= RETRY_STEPS
    ensures out == AlreadyExists ==> api.lease.Some?
  {
    at, stamp, checked := api.lease, api.now, api.now;
    var attempt := 0;
    while attempt < RETRY_STEPS
      invariant at == api.lease && IsPast(old(api.lease), at)
      invariant old(api.now) <= api.now
      invariant 0 <= attempt <= RETRY_STEPS
      invariant attempt > 0 ==> api.lease.Some? && api.lease.value.version >= attempt
    {
      api.Interfere();
      stamp := api.now;
      api.Interfere();
      var seen := api.lease;
      at := api.lease;
      checked := api.now;
      if seen.Some? && HeldByOther(seen.value, holder, checked) {
        return Busy, stamp, checked, at;
      }
      api.Interfere();
      at := api.lease;
      var w := AcquireWrite(seen, holder, stamp, seconds);
      var accepted := api.Submit(w);
      if accepted {
        return Acquired, stamp, checked, at;
      }
      if w.Create? {
        return AlreadyExists, stamp, checked, at;
      }
      attempt := attempt + 1;
    }
    return Conflict, stamp, checked, at;
  }

  const DEFAULT_SECONDS: int := 1200

  const DEFAULT_POLL: int := 5 * MICROS

  datatype Wait = Entered | TimedOut | Cancelled

  /** AcquireRestartLock: it enters the section only with a lease in its own name whose window was
      stamped within this call, gives up only after a failed attempt past the deadline, and otherwise
      polls on, so it always returns. A duration or poll interval that is not positive is replaced by
      the default. */
  method AcquireRestartLock(api: LeaseApi, holder: string, seconds: int, poll: int, deadline: int)
    returns (out: Wait, stamp: int)
    modifies api
    ensures old(api.now) <= api.now
    ensures out == Entered ==>
      && old(api.now) <= stamp <= api.now && api.lease.Some?
      && api.lease.value.holder == holder && api.lease.value.renew == Some(stamp)
      && api.lease.value.seconds == Some(if seconds <= 0 then DEFAULT_SECONDS else seconds)
    ensures out == TimedOut ==> api.now > deadline
    ensures out == Cancelled ==> api.ended
  {
    var duration := if seconds <= 0 then DEFAULT_SECONDS else seconds;
    var wait := if poll <= 0 then DEFAULT_POLL else poll;
    stamp := api.now;
    while true
      invariant old(api.now) <= api.now
      decreases deadline - api.now
    {
      var attempt, checked;
      ghost var at;
      attempt, stamp, checked, at := TryAcquireLease(api, holder, duration);
      if attempt == Acquired {
        return Entered, stamp;
      }
      if api.now > deadline {
        return TimedOut, stamp;
      }
      var cancelled := api.Pause(wait);
      if cancelled {
        return Cancelled, stamp;
      }
    }
  }

  datatype Release = Freed | NotOwn | GaveUp

  /** releaseLease: best effort, and only ever on a lease in the caller's own name. It leaves a lease of
      its own alone only after five conflicts, that is five writes of other clients. */
  method ReleaseLease(api: LeaseApi, holder: string) returns (out: Release, ghost at: Option<Lease>)
    modifies api
    ensures IsPast(old(api.lease), at)
    ensures out == Freed ==>
      && at.Some? && at.value.holder == holder
      && api.lease.Some? && api.lease.value.holder == "" && api.lease.value.version == at.value.version + 1
      && api.lease.value.seconds == at.value.seconds
      && api.lease.value.renew.Some? && api.lease.value.renew.value == api.now - 3600 * 1_000_000
    ensures out != Freed ==> api.lease == at
    ensures out == NotOwn ==> at.None? || at.value.holder != holder
    ensures out == GaveUp ==> at.Some? && at.value.version >= RETRY_STEPS
  {
    at := api.lease;
    var attempt := 0;
    while attempt < RETRY_STEPS
      invariant at == api.lease && IsPast(old(api.lease), at)
      invariant 0 <= attempt <= RETRY_STEPS
      invariant attempt > 0 ==> api.lease.Some? && api.lease.value.version >= attempt
    {
      api.Interfere();
      var seen := api.lease;
      at := api.lease;
      if seen.None? || seen.value.holder != holder {
        return NotOwn, at;
      }
      api.Interfere();
      at := api.lease;
      var freed := api.Submit(ReleaseWrite(seen.value, api.now));
      if freed {
        return Freed, at;
      }
      attempt := attempt + 1;
    }
    return GaveUp, at;
  }
}
