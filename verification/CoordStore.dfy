/** The desired-phase ConfigMap and the clients that read, create, update and patch it.

    Every write of EnsureRotation and AdvanceDesiredPhase is computed from an earlier read and
    carries the version it was read at. The API server accepts it only while that version is
    still current; the heartbeat patch alone carries no version. Reads and writes of any number
    of clients, each working for any rotation id, interleave freely. */
module CoordStore {
  import opened Text
  import opened Phases

  /** `participants` is the space-separated text stored in the ConfigMap. */
  datatype ConfigMap = ConfigMap(
    version: nat, rotationId: string, desired: Phase, participants: string, heartbeat: string)

  datatype Write = NoWrite | Create(data: ConfigMap) | Update(data: ConfigMap)

  // ---------------------------------------------------------------- reads

  predicate OwnedBy(cm: Option<ConfigMap>, rotationId: string) {
    cm.Some? && cm.value.rotationId == rotationId
  }

  /** ReadProgress: a missing or foreign ConfigMap, and an unknown phase, read as prepare. */
  function ReadProgress(cm: Option<ConfigMap>, rotationId: string): Phase {
    if !OwnedBy(cm, rotationId) || !Valid(cm.value.desired) then PREPARE else cm.value.desired
  }

  /** readParticipants: empty when the ConfigMap is missing or belongs to another rotation. */
  function ReadParticipants(cm: Option<ConfigMap>, rotationId: string): seq<string> {
    if OwnedBy(cm, rotationId) then Fields(cm.value.participants) else []
  }

  // ---------------------------------------------------------------- writes computed from a read

  function FreshData(version: nat, rotationId: string, names: seq<string>): ConfigMap {
    ConfigMap(version, rotationId, PREPARE, Join(names, " "), "")
  }

  /** The body of EnsureRotation's retry closure; `names` is the node list it takes when it
      builds a fresh payload. */
  function EnsureAttempt(seen: Option<ConfigMap>, rotationId: string, names: seq<string>): Write {
    match seen
    case None => Create(FreshData(0, rotationId, names))
    case Some(cm) =>
      if cm.rotationId == rotationId then NoWrite
      else Update(FreshData(cm.version, rotationId, names))
  }

  /** The body of AdvanceDesiredPhase's retry closure. */
  function AdvanceAttempt(seen: Option<ConfigMap>, rotationId: string, to: Phase, names: seq<string>): Write {
    match seen
    case None => Create(ConfigMap(0, rotationId, to, "", ""))
    case Some(cm) =>
      var data := if cm.rotationId == rotationId then cm else FreshData(cm.version, rotationId, names);
      if AtLeast(data.desired, to) then NoWrite else Update(data.(desired := to))
  }

  /** The API server: create only what is missing, update only at the version that was read. */
  function Commit(cm: Option<ConfigMap>, w: Write): (r: (Option<ConfigMap>, bool)) {
    match w
    case NoWrite => (cm, true)
    case Create(data) => if cm.None? then (Some(data.(version := 1)), true) else (cm, false)
    case Update(data) =>
      if cm.Some? && cm.value.version == data.version
      then (Some(data.(version := data.version + 1)), true)
      else (cm, false)
  }

  // ---------------------------------------------------------------- clients

  datatype Request =
    | Ensure(rotationId: string)
    | Advance(rotationId: string, to: Phase)
    | Beat(rotationId: string, stamp: string)

  datatype Client = Resting | Holding(request: Request, seen: Option<ConfigMap>, names: seq<string>)

  datatype Store = Store(cm: Option<ConfigMap>, clients: map<nat, Client>)

  datatype Step =
    | Get(client: nat, request: Request, names: seq<string>)
    | Put(client: nat)
    | GiveUp(client: nat)

  /** What a client writes once it has read: a heartbeat patches only its own field, at whatever
      version is current. */
  function PutEffect(cm: Option<ConfigMap>, c: Client): (r: (Option<ConfigMap>, bool))
    requires c.Holding?
  {
    match c.request
    case Ensure(id) => Commit(cm, EnsureAttempt(c.seen, id, c.names))
    case Advance(id, to) => Commit(cm, AdvanceAttempt(c.seen, id, to, c.names))
    case Beat(id, stamp) =>
      if !OwnedBy(c.seen, id) || cm.None? then (cm, c.seen.Some?)
      else (Some(cm.value.(heartbeat := stamp, version := cm.value.version + 1)), true)
  }

  predicate Enabled(s: Store, step: Step) {
    match step
    case Get(c, _, _) => true
    case Put(c) => c in s.clients && s.clients[c].Holding?
    case GiveUp(c) => true
  }

  function Apply(s: Store, step: Step): Store
    requires Enabled(s, step)
  {
    match step
    case Get(c, request, names) => s.(clients := s.clients[c := Holding(request, s.cm, names)])
    case Put(c) => Store(PutEffect(s.cm, s.clients[c]).0, s.clients[c := Resting])
    case GiveUp(c) => s.(clients := s.clients[c := Resting])
  }

  // ---------------------------------------------------------------- per-step guarantee

  /** A read is never ahead of the server, and at the same version it is the same object. */
  predicate IsPast(seen: Option<ConfigMap>, cm: Option<ConfigMap>) {
    seen.Some? ==>
      && cm.Some? && seen.value.version <= cm.value.version
      && (seen.value.version == cm.value.version ==> seen == cm)
  }

  predicate ReadsArePast(s: Store) {
    forall c | c in s.clients :: s.clients[c].Holding? ==> IsPast(s.clients[c].seen, s.cm)
  }

  lemma IsPastTransitive(a: Option<ConfigMap>, b: Option<ConfigMap>, c: Option<ConfigMap>)
    requires IsPast(a, b) && IsPast(b, c)
    ensures IsPast(a, c)
  {
  }

  lemma ReadsStayPast(s: Store, step: Step)
    requires ReadsArePast(s) && Enabled(s, step)
    ensures ReadsArePast(Apply(s, step)) && IsPast(s.cm, Apply(s, step).cm)
  {
    var s' := Apply(s, step);
    assert IsPast(s.cm, s'.cm);
    forall c | c in s'.clients && s'.clients[c].Holding?
      ensures IsPast(s'.clients[c].seen, s'.cm)
    {
      if c in s.clients && s.clients[c].Holding? {
        IsPastTransitive(s.clients[c].seen, s.cm, s'.cm);
      }
    }
  }

  /** What one rotation's ConfigMap may turn into without changing hands. */
  predicate KeepsRotation(before: ConfigMap, after: ConfigMap) {
    && after.rotationId == before.rotationId
    && after.participants == before.participants
    && Index(after.desired) >= Index(before.desired)
  }

  /** Per step and for any number of clients: the ConfigMap either changes hands, and then starts
      from a payload computed without its previous content, or keeps its participants and never
      moves its phase back. It is never removed. */
  lemma StepKeepsOrResets(s: Store, step: Step)
    requires ReadsArePast(s) && Enabled(s, step) && s.cm.Some?
    ensures var cm' := Apply(s, step).cm;
            && cm'.Some?
            && (KeepsRotation(s.cm.value, cm'.value)
                || (cm'.value.rotationId != s.cm.value.rotationId
                    && cm'.value.heartbeat == ""
                    && step.Put?
                    && cm'.value.participants == Join(s.clients[step.client].names, " ")))
  {
    if step.Put? {
      var c := s.clients[step.client];
      assert IsPast(c.seen, s.cm);
    }
  }

  // ---------------------------------------------------------------- whole runs

  /** A run: states, and the step taken between each two. */
  predicate IsRun(states: seq<Store>, steps: seq<Step>) {
    && |states| == |steps| + 1
    && forall i :: 0 <= i < |steps| ==> Enabled(states[i], steps[i]) && states[i + 1] == Apply(states[i], steps[i])
  }

  predicate AllResting(s: Store) {
    forall c | c in s.clients :: s.clients[c].Resting?
  }

  /** The rotation keeps the ConfigMap in every state of the run. */
  predicate HeldThroughout(states: seq<Store>, rotationId: string) {
    forall i :: 0 <= i < |states| ==> OwnedBy(states[i].cm, rotationId)
  }

  /** The target of an advance of `rotationId` that this step completes without an error, or -1.
      An advance that finds its target already reached completes without writing. */
  function CompletedTarget(s: Store, step: Step, rotationId: string): int
    requires Enabled(s, step)
  {
    if step.Put? && s.clients[step.client].request.Advance?
       && s.clients[step.client].request.rotationId == rotationId
       && PutEffect(s.cm, s.clients[step.client]).1
    then Index(s.clients[step.client].request.to)
    else -1
  }

  function Max(a: int, b: int): int {
    if a >= b then a else b
  }

  function MaxCompleted(states: seq<Store>, steps: seq<Step>, rotationId: string): int
    requires IsRun(states, steps)
  {
    if |steps| == 0 then -1
    else
      var n := |steps| - 1;
      Max(MaxCompleted(states[..n + 1], steps[..n], rotationId),
          CompletedTarget(states[n], steps[n], rotationId))
  }

  predicate ReadsNotAhead(s: Store, rotationId: string) {
    && ReadsArePast(s)
    && OwnedBy(s.cm, rotationId)
    && forall c | c in s.clients && s.clients[c].Holding? ::
         && OwnedBy(s.clients[c].seen, rotationId)
         && Index(s.clients[c].seen.value.desired) <= Index(s.cm.value.desired)
  }

  lemma {:induction false} ReadsNeverAhead(states: seq<Store>, steps: seq<Step>, rotationId: string)
    requires IsRun(states, steps) && HeldThroughout(states, rotationId) && AllResting(states[0])
    ensures ReadsNotAhead(states[|steps|], rotationId)
  {
    var n := |steps| - 1;
    if n >= 0 {
      ReadsNeverAhead(states[..n + 1], steps[..n], rotationId);
      ReadsStayPast(states[n], steps[n]);
      StepKeepsOrResets(states[n], steps[n]);
      assert OwnedBy(states[n + 1].cm, rotationId);
    }
  }

  /** One step of a rotation that keeps the ConfigMap: the phase moves exactly to a completed target. */
  lemma StepMovesToTarget(s: Store, step: Step, rotationId: string)
    requires ReadsNotAhead(s, rotationId) && Enabled(s, step)
    requires OwnedBy(Apply(s, step).cm, rotationId)
    ensures Index(Apply(s, step).cm.value.desired)
         == Max(Index(s.cm.value.desired), CompletedTarget(s, step, rotationId))
  {
    if step.Put? {
      var c := s.clients[step.client];
      assert IsPast(c.seen, s.cm);
      match c.request {
        case Ensure(id) => assert PutEffect(s.cm, c) == Commit(s.cm, EnsureAttempt(c.seen, id, c.names));
        case Advance(id, to) => assert PutEffect(s.cm, c) == Commit(s.cm, AdvanceAttempt(c.seen, id, to, c.names));
        case Beat(_, _) =>
      }
    }
  }

  /** However the advances of one rotation interleave, the phase ends at the highest of where it
      started and the targets of the advances that completed. */
  lemma {:induction false} AdvancesEndAtMaximum(states: seq<Store>, steps: seq<Step>, rotationId: string)
    requires IsRun(states, steps) && HeldThroughout(states, rotationId) && AllResting(states[0])
    ensures Index(states[|steps|].cm.value.desired)
         == Max(Index(states[0].cm.value.desired), MaxCompleted(states, steps, rotationId))
  {
    var n := |steps| - 1;
    if n >= 0 {
      AdvancesEndAtMaximum(states[..n + 1], steps[..n], rotationId);
      ReadsNeverAhead(states[..n + 1], steps[..n], rotationId);
      assert OwnedBy(states[n].cm, rotationId) && OwnedBy(states[n + 1].cm, rotationId);
      assert states[..n + 1][n] == states[n] && states[..n + 1][0] == states[0];
      StepMovesToTarget(states[n], steps[n], rotationId);
    }
  }

  /** What a rotation reads of its own ConfigMap: the recorded phase if it is one of the protocol's,
      and exactly the recorded names. */
  lemma OwnReadsBack(cm: ConfigMap, names: seq<string>)
    requires AllWords(names) && cm.participants == Join(names, " ")
    ensures ReadParticipants(Some(cm), cm.rotationId) == names
    ensures ReadProgress(Some(cm), cm.rotationId) == if cm.desired in ORDERED then cm.desired else PREPARE
  {
    FieldsOfJoin(names, ' ', "");
    assert Join(names, " ") + "" == Join(names, " ");
    if cm.desired in ORDERED {
      var i :| 0 <= i < |ORDERED| && ORDERED[i] == cm.desired;
      assert Index(cm.desired) >= 0;
    }
  }

  /** The rotation that claims the ConfigMap starts at prepare with the names it listed. */
  lemma ClaimReadsBack(seen: Option<ConfigMap>, rotationId: string, names: seq<string>)
    requires !OwnedBy(seen, rotationId) && AllWords(names)
    ensures var r := Commit(seen, EnsureAttempt(seen, rotationId, names));
            && r.1 && OwnedBy(r.0, rotationId)
            && ReadParticipants(r.0, rotationId) == names && ReadProgress(r.0, rotationId) == PREPARE
  {
    var r := Commit(seen, EnsureAttempt(seen, rotationId, names));
    OwnReadsBack(r.0.value, names);
  }

  /** What an undisturbed advance leaves. Without a ConfigMap it records no participants; over another
      rotation's it claims it with the names it listed, unless the target is where a fresh rotation
      starts anyway; its own keeps its names and is only raised. */
  lemma AdvanceReadsBack(seen: Option<ConfigMap>, rotationId: string, to: Phase, names: seq<string>)
    requires AllWords(names) && to in ORDERED
    ensures var r := Commit(seen, AdvanceAttempt(seen, rotationId, to, names));
            && r.1 && r.0.Some?
            && (seen.None? ==> ReadParticipants(r.0, rotationId) == [] && ReadProgress(r.0, rotationId) == to)
            && (seen.Some? && seen.value.rotationId != rotationId && to != PREPARE ==>
                ReadParticipants(r.0, rotationId) == names && ReadProgress(r.0, rotationId) == to)
            && (seen.Some? && seen.value.rotationId != rotationId && to == PREPARE ==> r.0 == seen)
            && (seen.Some? && seen.value.rotationId == rotationId ==>
                && r.0.value.participants == seen.value.participants && r.0.value.heartbeat == seen.value.heartbeat
                && r.0.value.desired == if Index(seen.value.desired) < Index(to) then to else seen.value.desired)
  {
    var r := Commit(seen, AdvanceAttempt(seen, rotationId, to, names));
    var i :| 0 <= i < |ORDERED| && ORDERED[i] == to;
    assert Index(to) == i && Index(PREPARE) == 0;
    if seen.Some? && seen.value.rotationId != rotationId && to != PREPARE {
      OwnReadsBack(r.0.value, names);
    }
  }

  /** While the ConfigMap is one rotation's, every other one reads the starting phase and no participants. */
  lemma ForeignReadsSeePrepare(cm: Option<ConfigMap>, holder: string, reader: string)
    requires OwnedBy(cm, holder) && reader != holder
    ensures ReadProgress(cm, reader) == PREPARE && ReadParticipants(cm, reader) == []
  {
  }

  predicate WorksFor(c: Client, rotationId: string) {
    c.Holding? && c.request.rotationId == rotationId
  }

  /** No client asks for the rotation. */
  predicate NobodyAsks(steps: seq<Step>, rotationId: string) {
    forall i :: 0 <= i < |steps| && steps[i].Get? ==> steps[i].request.rotationId != rotationId
  }

  lemma StepKeepsForeign(s: Store, step: Step, rotationId: string)
    requires Enabled(s, step) && NobodyAsks([step], rotationId) && !OwnedBy(s.cm, rotationId)
    requires forall c | c in s.clients :: !WorksFor(s.clients[c], rotationId)
    ensures !OwnedBy(Apply(s, step).cm, rotationId)
    ensures forall c | c in Apply(s, step).clients :: !WorksFor(Apply(s, step).clients[c], rotationId)
  {
    assert [step][0] == step;
    if step.Put? {
      assert !WorksFor(s.clients[step.client], rotationId);
    }
  }

  /** Whatever the clients of other rotations do, a rotation nobody works for reads the starting phase
      and no participants in every state of the run: a stale advance never leaks into it. */
  lemma {:induction false} IdleRotationSeesPrepare(states: seq<Store>, steps: seq<Step>, i: nat, reader: string)
    requires IsRun(states, steps) && i < |states| && AllResting(states[0])
    requires NobodyAsks(steps, reader) && !OwnedBy(states[0].cm, reader)
    ensures !OwnedBy(states[i].cm, reader)
    ensures forall c | c in states[i].clients :: !WorksFor(states[i].clients[c], reader)
    ensures ReadProgress(states[i].cm, reader) == PREPARE && ReadParticipants(states[i].cm, reader) == []
  {
    if i > 0 {
      IdleRotationSeesPrepare(states, steps, i - 1, reader);
      assert [steps[i - 1]][0] == steps[i - 1];
      StepKeepsForeign(states[i - 1], steps[i - 1], reader);
    }
  }

  // ---------------------------------------------------------------- heartbeat

  /** The heartbeat is documented as a no-op on a ConfigMap of another rotation. It is one exactly
      when its read was not of its own rotation: a read made before the ConfigMap changed hands
      still patches the new owner's object, because the patch carries no version. */
  lemma HeartbeatTouchesForeignIff(s: Store, c: nat)
    requires ReadsArePast(s) && Enabled(s, Put(c)) && s.clients[c].request.Beat?
    requires s.cm.Some? && !OwnedBy(s.cm, s.clients[c].request.rotationId)
    ensures Apply(s, Put(c)).cm != s.cm <==> OwnedBy(s.clients[c].seen, s.clients[c].request.rotationId)
    ensures KeepsRotation(s.cm.value, Apply(s, Put(c)).cm.value)
  {
  }

  /** Such a read exists: a late master of rotation "a" marks rotation "b" as driven. */
  lemma HeartbeatTouchesForeignExample() returns (states: seq<Store>, steps: seq<Step>)
    ensures IsRun(states, steps) && AllResting(states[0]) && |steps| == 4
    ensures OwnedBy(states[3].cm, "b") && states[3].cm.value.heartbeat == ""
    ensures OwnedBy(states[4].cm, "b") && states[4].cm.value.heartbeat == "now"
    ensures steps[3] == Put(0) && states[3].clients[0].request.rotationId == "a"
  {
    var s0 := Store(Some(FreshData(1, "a", [])), map[]);
    steps := [Get(0, Beat("a", "now"), []), Get(1, Ensure("b"), []), Put(1), Put(0)];
    var s1 := Apply(s0, steps[0]);
    var s2 := Apply(s1, steps[1]);
    var s3 := Apply(s2, steps[2]);
    var s4 := Apply(s3, steps[3]);
    states := [s0, s1, s2, s3, s4];
    assert s1.clients[0].Holding? && s2.clients[0] == s1.clients[0] && s3.clients[0] == s1.clients[0];
    assert s2.clients[1].Holding?;
    assert s3.cm == Some(FreshData(2, "b", []));
  }

  // ---------------------------------------------------------------- the client code

  /** The API server's ConfigMap object as one client sees it. */
  class ConfigMapApi {
    var cm: Option<ConfigMap>

    constructor (cm: Option<ConfigMap>)
      ensures this.cm == cm
    {
      this.cm := cm;
    }

    /** Other clients may act between two calls of this one: callers learn only that the object
        was not removed and that its version tells whether it changed. */
    method Interfere()
      modifies this
      ensures IsPast(old(cm), cm)
    {
    }

    method Submit(w: Write) returns (accepted: bool)
      modifies this
      ensures (cm, accepted) == Commit(old(cm), w)
    {
      var r := Commit(cm, w);
      cm, accepted := r.0, r.1;
    }
  }

  datatype Outcome = Done | AlreadyExists | Conflict

  const RETRY_STEPS: nat := 5

  /** EnsureRotation under retry.RetryOnConflict: a conflict retries, a lost race to create is an
      error. Success took effect at one instant `at`, on the object as it then was, and from that
      instant the ConfigMap is the rotation's. `lists` are the node lists the attempts take. */
  method EnsureRotation(api: ConfigMapApi, rotationId: string, lists: seq<seq<string>>)
    returns (out: Outcome, attempt: nat, ghost at: Option<ConfigMap>)
    requires |lists| == RETRY_STEPS
    modifies api
    ensures IsPast(old(api.cm), at) && IsPast(at, api.cm)
    ensures out == Done ==>
      attempt < RETRY_STEPS && api.cm == Commit(at, EnsureAttempt(at, rotationId, lists[attempt])).0
    ensures out == Done ==> OwnedBy(api.cm, rotationId)
    ensures out == Done && OwnedBy(at, rotationId) ==> api.cm == at
    ensures out == Done && !OwnedBy(at, rotationId) && AllWords(lists[attempt]) ==>
      ReadParticipants(api.cm, rotationId) == lists[attempt] && ReadProgress(api.cm, rotationId) == PREPARE
    ensures out != Done ==> api.cm == at
    // five conflicts are five writes of other clients
    ensures out == Conflict ==> api.cm.Some? && api.cm.value.version >= RETRY_STEPS
    ensures out == AlreadyExists ==> api.cm.Some?
  {
    attempt := 0;
    at := api.cm;
    while attempt < RETRY_STEPS
      invariant 0 <= attempt <= RETRY_STEPS
      invariant at == api.cm && IsPast(old(api.cm), at)
      invariant attempt > 0 ==> api.cm.Some? && api.cm.value.version >= attempt
    {
      api.Interfere();
      var seen := api.cm;
      at := api.cm;
      var w := EnsureAttempt(seen, rotationId, lists[attempt]);
      if w.NoWrite? {
        return Done, attempt, at;
      }
      api.Interfere();
      at := api.cm;
      var accepted := api.Submit(w);
      if accepted {
        if !OwnedBy(at, rotationId) && AllWords(lists[attempt]) {
          ClaimReadsBack(at, rotationId, lists[attempt]);
        }
        return Done, attempt, at;
      }
      if w.Create? {
        return AlreadyExists, attempt, at;
      }
      attempt := attempt + 1;
    }
    return Conflict, attempt, at;
  }

  /** AdvanceDesiredPhase under retry.RetryOnConflict: success took effect at one instant, and
      from then on the rotation reads a phase at least as far as the target. */
  method AdvanceDesiredPhase(api: ConfigMapApi, rotationId: string, to: Phase, lists: seq<seq<string>>)
    returns (out: Outcome, attempt: nat, ghost at: Option<ConfigMap>)
    requires |lists| == RETRY_STEPS
    modifies api
    ensures IsPast(old(api.cm), at) && IsPast(at, api.cm)
    ensures out == Done ==>
      attempt < RETRY_STEPS && api.cm == Commit(at, AdvanceAttempt(at, rotationId, to, lists[attempt])).0
    ensures out == Done ==> AtLeast(ReadProgress(api.cm, rotationId), to)
    ensures out == Done && Index(to) > 0 ==> OwnedBy(api.cm, rotationId)
    ensures out == Done && OwnedBy(at, rotationId) ==>
      && api.cm.value.participants == at.value.participants
      && Index(api.cm.value.desired) == Max(Index(at.value.desired), Index(to))
    ensures out == Done && at.Some? && !OwnedBy(at, rotationId) && Index(to) > 0 && AllWords(lists[attempt]) ==>
      api.cm.value.desired == to && ReadParticipants(api.cm, rotationId) == lists[attempt]
    ensures out != Done ==> api.cm == at
    // five conflicts are five writes of other clients
    ensures out == Conflict ==> api.cm.Some? && api.cm.value.version >= RETRY_STEPS
    ensures out == AlreadyExists ==> api.cm.Some?
  {
    attempt := 0;
    at := api.cm;
    while attempt < RETRY_STEPS
      invariant 0 <= attempt <= RETRY_STEPS
      invariant at == api.cm && IsPast(old(api.cm), at)
      invariant attempt > 0 ==> api.cm.Some? && api.cm.value.version >= attempt
    {
      api.Interfere();
      var seen := api.cm;
      at := api.cm;
      var w := AdvanceAttempt(seen, rotationId, to, lists[attempt]);
      if w.NoWrite? {
        return Done, attempt, at;
      }
      api.Interfere();
      at := api.cm;
      var accepted := api.Submit(w);
      if accepted {
        if at.Some? && !OwnedBy(at, rotationId) && AllWords(lists[attempt]) {
          OwnReadsBack(api.cm.value, lists[attempt]);
        }
        return Done, attempt, at;
      }
      if w.Create? {
        return AlreadyExists, attempt, at;
      }
      attempt := attempt + 1;
    }
    return Conflict, attempt, at;
  }
}
