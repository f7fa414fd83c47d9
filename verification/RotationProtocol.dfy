/** The dual-CA rotation of one rotation id, run by any number of masters and workers.

    A step is one read or write of the Kubernetes API, or one change of local files or services.
    Steps of different nodes interleave freely; any run may stop at any point (a crash, a timeout,
    an API error) and start again from the state file it saved. */
module RotationProtocol {
  import opened Text
  import opened Phases
  import opened CoordStore
  import opened BarrierCheck

  // ---------------------------------------------------------------- trust material

  datatype Generation = Old | New
  datatype TrustMode = OnlyOld | Bundle | OnlyNew

  /** What a node's services work with once the files of phase `k` are in place and loaded
      (-1: before the rotation), as recorded by stateFor. */
  datatype Material = Material(ca: TrustMode, leaf: Generation, saVerify: TrustMode, saSign: Generation)

  function MaterialOf(k: int): Material {
    if k < 0 then Material(OnlyOld, Old, OnlyOld, Old)
    else if k == 0 then Material(Bundle, Old, Bundle, Old)
    else if k == 1 then Material(Bundle, New, Bundle, New)
    else Material(OnlyNew, New, OnlyNew, New)
  }

  predicate Accepts(mode: TrustMode, presented: Generation) {
    match mode
    case OnlyOld => presented == Old
    case Bundle => true
    case OnlyNew => presented == New
  }

  /** The verifier accepts the presenter's certificate and its service-account tokens. */
  predicate Trusts(verifier: Material, presenter: Material) {
    Accepts(verifier.ca, presenter.leaf) && Accepts(verifier.saVerify, presenter.saSign)
  }

  // ---------------------------------------------------------------- state

  /** Where a node's run stands. The number is the position of the phase being worked on. */
  datatype Pc =
    | Idle
    | EnsureGet
    | EnsureList(seen: Option<ConfigMap>)
    | EnsurePut(seen: Option<ConfigMap>, names: seq<string>)
    | Refresh
    | At(k: int)
    | Installing(k: int)
    | Loaded(k: int)
    | Reported(k: int)
    | Waiting(k: int)
    | Listed(k: int, nodes: Nodes)
    | Passed(k: int)
    | AdvanceList(k: int, seen: Option<ConfigMap>)
    | AdvancePut(k: int, seen: Option<ConfigMap>, names: seq<string>)
    | Finished

  /** A machine that held the old CA when the rotation began.
      completed: the phase in its state file;  reported: the furthest phase it ever reported;
      loaded: every service runs with at least this phase's files;
      written: files of this phase have begun to be written, so a service may already use them. */
  datatype Host = Host(master: bool, completed: int, reported: int, loaded: int, written: int, pc: Pc)

  datatype Cluster = Cluster(nodes: Nodes, cm: Option<ConfigMap>, hosts: map<string, Host>)

  /** In the cluster and not on its way out. */
  predicate Live(c: Cluster, n: string) {
    n in c.hosts && n in c.nodes && !c.nodes[n].terminating
  }

  predicate Init(c: Cluster, id: string) {
    && !OwnedBy(c.cm, id)
    && (forall n | n in c.nodes :: IsWord(n))
    && (forall n | n in c.hosts :: c.hosts[n] == Host(c.hosts[n].master, -1, -1, -1, -1, Idle))
    && (forall n | n in c.hosts && n in c.nodes :: Index(ReachedPhase(c.nodes[n].annotation, id)) < 0)
  }

  // ---------------------------------------------------------------- steps

  /** `GiveUpAdvance` is an advance that failed for good: the retries are used up, or another API
      error; the master polls again. A rejected write alone is retried from a new read. */
  datatype Action =
    | Start
    | ReadConfigMap
    | ListNodes(names: seq<string>)
    | WriteConfigMap
    | Reassert(sent: bool)
    | Enter(held: bool)
    | LoadServices
    | Report
    | Save
    | Poll
    | CollectNodes
    | Judge(readOk: bool)
    | GiveUpAdvance
    | Abort

  datatype Step =
    | Act(host: string, action: Action)
    | Admit(name: string, obj: NodeObject)
    | Terminate(name: string)
    | Remove(name: string)
    | Heartbeat(stamp: string)

  /** currentNodeNames: the nodes not terminating, or nothing when the list call fails. */
  ghost predicate IsNodeList(nodes: Nodes, names: seq<string>) {
    || |names| == 0
    || (forall n :: n in names <==> n in nodes && !nodes[n].terminating)
  }

  ghost predicate ActionEnabled(c: Cluster, id: string, n: string, action: Action) {
    && n in c.hosts
    && var h := c.hosts[n];
       match action
       case Start => h.pc.Idle?
       case ReadConfigMap => h.pc.EnsureGet? || h.pc.Passed?
       case ListNodes(names) => (h.pc.EnsureList? || h.pc.AdvanceList?) && IsNodeList(c.nodes, names)
       case WriteConfigMap => h.pc.EnsurePut? || h.pc.AdvancePut?
       case Reassert(sent) => h.pc.Refresh?
       case Enter(held) => h.pc.At?
       case LoadServices => h.pc.Installing?
       case Report => h.pc.Loaded? && n in c.nodes
       case Save => h.pc.Reported?
       case Poll => h.pc.Waiting? && 0 <= h.pc.k <= 1 && AtLeast(ReadProgress(c.cm, id), ORDERED[h.pc.k + 1])
       case CollectNodes => h.pc.Waiting? && h.master
       case Judge(readOk) => h.pc.Listed?
       case GiveUpAdvance => h.pc.Passed? || h.pc.AdvanceList? || h.pc.AdvancePut?
       case Abort => true
  }

  ghost predicate Enabled(c: Cluster, id: string, step: Step) {
    match step
    case Act(n, action) => ActionEnabled(c, id, n, action)
    case Admit(n, obj) => n !in c.nodes && n !in c.hosts && IsWord(n)
    case Terminate(n) => n in c.nodes
    case Remove(n) => n in c.nodes
    case Heartbeat(_) => c.cm.Some?
  }

  function SetAnnotation(nodes: Nodes, n: string, k: int, id: string): Nodes {
    if n in nodes && 0 <= k <= 3 then nodes[n := nodes[n].(annotation := StatusText(ORDERED[k], id))] else nodes
  }

  /** The control state after an action, for those actions that touch nothing but the host. */
  ghost function LocalEffect(c: Cluster, id: string, h: Host, action: Action): Host {
    match action
    case Start => h.(pc := if h.master then EnsureGet else Refresh)
    case ReadConfigMap =>
      if h.pc.Passed? then h.(pc := AdvanceList(h.pc.k, c.cm))
      else if OwnedBy(c.cm, id) then h.(pc := Refresh)
      else h.(pc := EnsureList(c.cm))
    case ListNodes(names) =>
      if h.pc.EnsureList? then h.(pc := EnsurePut(h.pc.seen, names))
      else if h.pc.AdvanceList? then h.(pc := AdvancePut(h.pc.k, h.pc.seen, names))
      else h
    case Enter(held) =>
      if !h.pc.At? then h
      else if h.pc.k == 2 && h.completed < 2 && held then h.(pc := Idle)
      else if h.completed >= h.pc.k then h.(pc := if h.pc.k < 2 then Waiting(h.pc.k) else Finished)
      else h.(pc := Installing(h.pc.k), written := Max(h.written, h.pc.k))
    case LoadServices => if h.pc.Installing? then h.(pc := Loaded(h.pc.k), loaded := Max(h.loaded, h.pc.k)) else h
    case Save =>
      if h.pc.Reported? then h.(completed := h.pc.k, pc := if h.pc.k < 2 then Waiting(h.pc.k) else Finished) else h
    case Poll => if h.pc.Waiting? then h.(pc := At(h.pc.k + 1)) else h
    case CollectNodes => if h.pc.Waiting? then h.(pc := Listed(h.pc.k, c.nodes)) else h
    case Judge(readOk) =>
      if !h.pc.Listed? || !(0 <= h.pc.k <= 1) then h
      else
        var participants := if readOk then ReadParticipants(c.cm, id) else [];
        h.(pc := if EveryoneReached(h.pc.nodes, participants, id, ORDERED[h.pc.k])
                 then Passed(h.pc.k) else Waiting(h.pc.k))
    case GiveUpAdvance => if h.pc.Passed? || h.pc.AdvanceList? || h.pc.AdvancePut? then h.(pc := Waiting(h.pc.k)) else h
    case Abort => h.(pc := Idle)
    case _ => h
  }

  /** The ConfigMap write of EnsureRotation or AdvanceDesiredPhase that this control state is about to make. */
  function PendingWrite(pc: Pc, id: string): Write {
    match pc
    case EnsurePut(seen, names) => EnsureAttempt(seen, id, names)
    case AdvancePut(k, seen, names) => if 0 <= k <= 1 then AdvanceAttempt(seen, id, ORDERED[k + 1], names) else NoWrite
    case _ => NoWrite
  }

  function AfterWrite(pc: Pc, accepted: bool): Pc {
    match pc
    case EnsurePut(_, _) => if accepted then Refresh else EnsureGet
    case AdvancePut(k, _, _) => if accepted then Waiting(k) else Passed(k)
    case _ => pc
  }

  ghost function Apply(c: Cluster, id: string, step: Step): Cluster
    requires Enabled(c, id, step)
  {
    match step
    case Act(n, action) =>
      var h := c.hosts[n];
      (match action
       case WriteConfigMap =>
         var r := Commit(c.cm, PendingWrite(h.pc, id));
         Cluster(c.nodes, r.0, c.hosts[n := h.(pc := AfterWrite(h.pc, r.1))])
       case Reassert(sent) =>
         c.(nodes := if sent then SetAnnotation(c.nodes, n, h.completed, id) else c.nodes,
            hosts := c.hosts[n := h.(pc := At(0))])
       case Report =>
         c.(nodes := SetAnnotation(c.nodes, n, h.pc.k, id),
            hosts := c.hosts[n := h.(reported := Max(h.reported, h.pc.k), pc := Reported(h.pc.k))])
       case _ => c.(hosts := c.hosts[n := LocalEffect(c, id, h, action)]))
    case Admit(n, obj) => c.(nodes := c.nodes[n := obj])
    case Terminate(n) => c.(nodes := c.nodes[n := c.nodes[n].(terminating := true)])
    case Remove(n) => c.(nodes := c.nodes - {n})
    case Heartbeat(stamp) =>
      c.(cm := Some(c.cm.value.(heartbeat := stamp, version := c.cm.value.version + 1)))
  }

  // ---------------------------------------------------------------- invariant

  /** Every live host has reported phase `k` (or a later one) at some time. */
  ghost predicate AllReported(c: Cluster, k: int) {
    forall n | Live(c, n) :: c.hosts[n].reported >= k
  }

  ghost predicate CoversLive(c: Cluster, names: seq<string>) {
    forall n | Live(c, n) :: n in names
  }

  /** The local counters agree with each other and with the control state. */
  predicate HostShape(h: Host) {
    && -1 <= h.completed <= h.reported <= h.loaded <= h.written <= 2
    && h.written <= h.completed + 1
    && match h.pc
       case At(k) => 0 <= k <= 2 && k <= h.completed + 1
       case Installing(k) => 0 <= k <= 2 && k == h.completed + 1 && k <= h.written
       case Loaded(k) => 0 <= k <= 2 && k == h.completed + 1 && k <= h.loaded
       case Reported(k) => 0 <= k <= 2 && k == h.completed + 1 && k <= h.reported
       case Waiting(k) => 0 <= k <= 1 && k <= h.completed
       case Listed(k, _) => 0 <= k <= 1 && k <= h.completed
       case Passed(k) => 0 <= k <= 1 && k <= h.completed
       case AdvanceList(k, _) => 0 <= k <= 1 && k <= h.completed
       case AdvancePut(k, _, _) => 0 <= k <= 1 && k <= h.completed
       case _ => true
  }

  /** What a host's control state remembers about the rest of the cluster is still true. */
  ghost predicate HostKnows(c: Cluster, id: string, h: Host) {
    && AllReported(c, h.written - 1)
    && match h.pc
       case EnsureList(seen) => IsPast(seen, c.cm)
       case EnsurePut(seen, names) =>
         IsPast(seen, c.cm) && AllWords(names) && (names == [] || CoversLive(c, names))
       case At(k) => AllReported(c, k - 1)
       case Listed(k, nodes) =>
         forall n | Live(c, n) ::
           n in nodes && !nodes[n].terminating && Index(ReachedPhase(nodes[n].annotation, id)) <= c.hosts[n].reported
       case Passed(k) => AllReported(c, k)
       case AdvanceList(k, seen) => IsPast(seen, c.cm) && AllReported(c, k)
       case AdvancePut(k, seen, names) =>
         IsPast(seen, c.cm) && AllReported(c, k) && AllWords(names) && (names == [] || CoversLive(c, names))
       case _ => true
  }

  ghost predicate ConfigMapSound(c: Cluster, id: string) {
    OwnedBy(c.cm, id) ==>
      && AllReported(c, Index(c.cm.value.desired) - 1)
      && (Fields(c.cm.value.participants) == [] || CoversLive(c, Fields(c.cm.value.participants)))
  }

  ghost predicate AnnotationsSound(c: Cluster, id: string) {
    forall n | n in c.hosts && n in c.nodes ::
      Index(ReachedPhase(c.nodes[n].annotation, id)) <= c.hosts[n].reported
  }

  ghost predicate Inv(c: Cluster, id: string) {
    && (forall n | n in c.nodes :: IsWord(n))
    && (forall n | n in c.hosts :: HostShape(c.hosts[n]) && HostKnows(c, id, c.hosts[n]))
    && ConfigMapSound(c, id)
    && AnnotationsSound(c, id)
  }

  /** How the part of the cluster that hosts remember may change: hosts stay the same machines,
      live ones only disappear, reports only accumulate, the ConfigMap only gets newer. */
  ghost predicate MovesOn(c: Cluster, c': Cluster) {
    && c'.hosts.Keys == c.hosts.Keys
    && (forall n | Live(c', n) :: Live(c, n))
    && (forall n | n in c.hosts :: c.hosts[n].reported <= c'.hosts[n].reported)
    && IsPast(c.cm, c'.cm)
  }

  lemma AllReportedStays(c: Cluster, c': Cluster, k: int)
    requires MovesOn(c, c') && AllReported(c, k)
    ensures AllReported(c', k)
  {
    forall n | Live(c', n) ensures c'.hosts[n].reported >= k {
      assert Live(c, n);
    }
  }

  lemma HostKnowsStays(c: Cluster, c': Cluster, id: string, h: Host)
    requires MovesOn(c, c') && HostKnows(c, id, h)
    ensures HostKnows(c', id, h)
  {
    AllReportedStays(c, c', h.written - 1);
    match h.pc {
      case EnsureList(seen) => IsPastTransitive(seen, c.cm, c'.cm);
      case EnsurePut(seen, _) => IsPastTransitive(seen, c.cm, c'.cm);
      case At(k) => AllReportedStays(c, c', k - 1);
      case Passed(k) => AllReportedStays(c, c', k);
      case AdvanceList(k, seen) =>
        IsPastTransitive(seen, c.cm, c'.cm);
        AllReportedStays(c, c', k);
      case AdvancePut(k, seen, _) =>
        IsPastTransitive(seen, c.cm, c'.cm);
        AllReportedStays(c, c', k);
      case _ =>
    }
  }

  // ---------------------------------------------------------------- the invariant is kept

  /** Replacing one host's record, once the rest of the invariant is known for the new cluster. */
  lemma InvFromParts(c: Cluster, c': Cluster, id: string, n: string)
    requires Inv(c, id) && MovesOn(c, c') && n in c.hosts
    requires forall m | m in c.hosts && m != n :: c'.hosts[m] == c.hosts[m]
    requires HostShape(c'.hosts[n]) && HostKnows(c', id, c'.hosts[n])
    requires forall m | m in c'.nodes :: IsWord(m)
    requires ConfigMapSound(c', id) && AnnotationsSound(c', id)
    ensures Inv(c', id)
  {
    forall m | m in c'.hosts ensures HostShape(c'.hosts[m]) && HostKnows(c', id, c'.hosts[m]) {
      if m != n {
        HostKnowsStays(c, c', id, c.hosts[m]);
      }
    }
  }

  lemma ConfigMapSoundStays(c: Cluster, c': Cluster, id: string)
    requires MovesOn(c, c') && ConfigMapSound(c, id) && c'.cm == c.cm
    ensures ConfigMapSound(c', id)
  {
    if OwnedBy(c.cm, id) {
      AllReportedStays(c, c', Index(c.cm.value.desired) - 1);
    }
  }

  /** Everyone reached: a passed check over an earlier node list covers every host still live. */
  lemma JudgedAllReported(c: Cluster, id: string, h: Host, readOk: bool)
    requires h.pc.Listed? && 0 <= h.pc.k <= 1 && HostKnows(c, id, h) && ConfigMapSound(c, id)
    requires EveryoneReached(h.pc.nodes, if readOk then ReadParticipants(c.cm, id) else [], id, ORDERED[h.pc.k])
    ensures AllReported(c, h.pc.k)
  {
    var participants := if readOk then ReadParticipants(c.cm, id) else [];
    forall n | Live(c, n) ensures c.hosts[n].reported >= h.pc.k {
      assert n in h.pc.nodes && !h.pc.nodes[n].terminating;
      assert Waits(h.pc.nodes, participants, n);
      assert !Blocks(h.pc.nodes, n, id, ORDERED[h.pc.k]);
      assert Index(ORDERED[h.pc.k]) == h.pc.k;
    }
  }

  predicate IsLocal(action: Action) {
    !action.WriteConfigMap? && !action.Reassert? && !action.Report?
  }

  /** A barrier is passed only on a ConfigMap that vouches for the reports of the phase before. */
  lemma PollSound(c: Cluster, id: string, n: string)
    requires Inv(c, id) && ActionEnabled(c, id, n, Poll)
    ensures AllReported(c, c.hosts[n].pc.k)
  {
    assert OwnedBy(c.cm, id);
    assert AllReported(c, Index(c.cm.value.desired) - 1);
    assert Index(ORDERED[c.hosts[n].pc.k + 1]) == c.hosts[n].pc.k + 1;
  }

  lemma LocalEffectSound(c: Cluster, id: string, n: string, action: Action)
    requires Inv(c, id) && ActionEnabled(c, id, n, action) && IsLocal(action)
    ensures var h' := LocalEffect(c, id, c.hosts[n], action); HostShape(h') && HostKnows(c, id, h')
    ensures LocalEffect(c, id, c.hosts[n], action).reported == c.hosts[n].reported
  {
    var h := c.hosts[n];
    assert HostShape(h) && HostKnows(c, id, h);
    match action {
      case ListNodes(names) => assert AllWords(names);
      case Judge(readOk) =>
        if LocalEffect(c, id, h, action).pc.Passed? {
          JudgedAllReported(c, id, h, readOk);
        }
      case Poll => PollSound(c, id, n);
      case _ =>
    }
  }

  lemma LocalActionKeepsInv(c: Cluster, id: string, n: string, action: Action)
    requires Inv(c, id) && ActionEnabled(c, id, n, action) && IsLocal(action)
    ensures Inv(Apply(c, id, Act(n, action)), id)
  {
    LocalEffectSound(c, id, n, action);
    var h' := LocalEffect(c, id, c.hosts[n], action);
    var c' := c.(hosts := c.hosts[n := h']);
    assert Apply(c, id, Act(n, action)) == c';
    assert MovesOn(c, c');
    ConfigMapSoundStays(c, c', id);
    HostKnowsStays(c, c', id, h');
    InvFromParts(c, c', id, n);
  }

  lemma ReportKeepsInv(c: Cluster, id: string, n: string, action: Action)
    requires Inv(c, id) && ActionEnabled(c, id, n, action) && (action.Reassert? || action.Report?)
    ensures Inv(Apply(c, id, Act(n, action)), id)
  {
    var c' := Apply(c, id, Act(n, action));
    var h := c.hosts[n];
    assert HostShape(h) && HostKnows(c, id, h);
    assert MovesOn(c, c');
    ConfigMapSoundStays(c, c', id);
    HostKnowsStays(c, c', id, h);
    ReportReads(if action.Report? then h.pc.k else h.completed, id);
    InvFromParts(c, c', id, n);
  }

  /** A written status reads back as that phase, or as none. */
  lemma ReportReads(k: int, id: string)
    ensures 0 <= k <= 3 ==> Index(ReachedPhase(StatusText(ORDERED[k], id), id)) <= k
  {
    if 0 <= k <= 3 {
      StatusRoundTripIff(ORDERED[k], id);
    }
  }

  /** What a ConfigMap write changes: the object, to a newer one, and the writer's control state. */
  lemma WriteMoves(c: Cluster, id: string, n: string)
    requires ActionEnabled(c, id, n, WriteConfigMap)
    ensures var h, r := c.hosts[n], Commit(c.cm, PendingWrite(c.hosts[n].pc, id));
            && Apply(c, id, Act(n, WriteConfigMap))
               == Cluster(c.nodes, r.0, c.hosts[n := h.(pc := AfterWrite(h.pc, r.1))])
            && IsPast(c.cm, r.0)
            && MovesOn(c, Apply(c, id, Act(n, WriteConfigMap)))
  {
    var c' := Apply(c, id, Act(n, WriteConfigMap));
    assert forall m :: Live(c', m) <==> Live(c, m);
  }

  lemma WriterKnows(c: Cluster, id: string, h: Host, accepted: bool)
    requires HostShape(h) && HostKnows(c, id, h) && (h.pc.EnsurePut? || h.pc.AdvancePut?)
    ensures var h' := h.(pc := AfterWrite(h.pc, accepted)); HostShape(h') && HostKnows(c, id, h')
  {
  }

  lemma WriteKeepsInv(c: Cluster, id: string, n: string)
    requires Inv(c, id) && ActionEnabled(c, id, n, WriteConfigMap)
    ensures Inv(Apply(c, id, Act(n, WriteConfigMap)), id)
  {
    var c' := Apply(c, id, Act(n, WriteConfigMap));
    var h := c.hosts[n];
    assert HostShape(h) && HostKnows(c, id, h);
    WriteMoves(c, id, n);
    HostKnowsStays(c, c', id, h);
    WriterKnows(c', id, h, Commit(c.cm, PendingWrite(h.pc, id)).1);
    WriteIsSound(c, id, h);
    if c'.cm == c.cm {
      ConfigMapSoundStays(c, c', id);
    } else {
      ConfigMapSoundStays(c.(cm := c'.cm), c', id);
    }
    InvFromParts(c, c', id, n);
  }

  lemma JoinedNames(names: seq<string>)
    requires AllWords(names)
    ensures Fields(Join(names, " ")) == names && Fields("") == []
  {
    FieldsOfJoin(names, ' ', "");
    assert Join(names, " ") + "" == Join(names, " ");
  }

  lemma SoundWithConfigMap(c: Cluster, id: string, cm: Option<ConfigMap>)
    requires OwnedBy(cm, id) ==>
      && AllReported(c, Index(cm.value.desired) - 1)
      && (Fields(cm.value.participants) == [] || CoversLive(c, Fields(cm.value.participants)))
    ensures ConfigMapSound(c.(cm := cm), id)
  {
    var c' := c.(cm := cm);
    assert forall n :: Live(c', n) <==> Live(c, n);
  }

  /** An accepted write records only what its writer knows. */
  lemma WriteIsSound(c: Cluster, id: string, h: Host)
    requires Inv(c, id) && HostShape(h) && HostKnows(c, id, h)
    requires h.pc.EnsurePut? || h.pc.AdvancePut?
    ensures var cm' := Commit(c.cm, PendingWrite(h.pc, id)).0;
            cm' != c.cm ==> ConfigMapSound(c.(cm := cm'), id)
  {
    JoinedNames(h.pc.names);
    assert Index(PREPARE) == 0;
    var cm' := Commit(c.cm, PendingWrite(h.pc, id)).0;
    if cm' != c.cm {
      if h.pc.AdvancePut? {
        assert cm'.value.desired == ORDERED[h.pc.k + 1];
      } else {
        assert cm'.value.desired == PREPARE;
      }
      SoundWithConfigMap(c, id, cm');
    }
  }

  lemma EnvironmentKeepsInv(c: Cluster, id: string, step: Step)
    requires Inv(c, id) && Enabled(c, id, step) && !step.Act?
    ensures Inv(Apply(c, id, step), id)
  {
    var c' := Apply(c, id, step);
    assert MovesOn(c, c');
    if OwnedBy(c.cm, id) {
      AllReportedStays(c, c', Index(c.cm.value.desired) - 1);
    }
    forall m | m in c'.hosts ensures HostShape(c'.hosts[m]) && HostKnows(c', id, c'.hosts[m]) {
      HostKnowsStays(c, c', id, c.hosts[m]);
    }
  }

  lemma StepKeepsInv(c: Cluster, id: string, step: Step)
    requires Inv(c, id) && Enabled(c, id, step)
    ensures Inv(Apply(c, id, step), id)
  {
    match step {
      case Act(n, WriteConfigMap) => WriteKeepsInv(c, id, n);
      case Act(n, Reassert(sent)) => ReportKeepsInv(c, id, n, Reassert(sent));
      case Act(n, Report) => ReportKeepsInv(c, id, n, Report);
      case Act(n, action) => LocalActionKeepsInv(c, id, n, action);
      case _ => EnvironmentKeepsInv(c, id, step);
    }
  }

  // ---------------------------------------------------------------- whole runs

  ghost predicate IsRunFrom(clusters: seq<Cluster>, steps: seq<Step>, id: string) {
    && |clusters| == |steps| + 1
    && forall i :: 0 <= i < |steps| ==> IsStep(clusters[i], id, steps[i], clusters[i + 1])
  }

  ghost predicate IsStep(c: Cluster, id: string, step: Step, c': Cluster) {
    Enabled(c, id, step) && c' == Apply(c, id, step)
  }

  ghost predicate IsRun(clusters: seq<Cluster>, steps: seq<Step>, id: string) {
    IsRunFrom(clusters, steps, id) && Init(clusters[0], id)
  }

  lemma {:induction false} RunKeepsInv(clusters: seq<Cluster>, steps: seq<Step>, id: string, i: nat)
    requires IsRun(clusters, steps, id) && i < |clusters|
    ensures Inv(clusters[i], id)
  {
    if i > 0 {
      RunKeepsInv(clusters, steps, id, i - 1);
      StepKeepsInv(clusters[i - 1], id, steps[i - 1]);
    }
  }

  /** Phase skew, in every state of every run: once any machine has begun to install phase `q`,
      every old-CA node still in the cluster and not terminating has reported at least the phase
      before `q`, whether the barrier used the recorded participants or all current nodes. */
  lemma PhaseSkew(clusters: seq<Cluster>, steps: seq<Step>, id: string, i: nat, m: string, n: string)
    requires IsRun(clusters, steps, id) && i < |clusters|
    requires m in clusters[i].hosts && Live(clusters[i], n)
    ensures clusters[i].hosts[n].reported >= clusters[i].hosts[m].written - 1
  {
    RunKeepsInv(clusters, steps, id, i);
    var c := clusters[i];
    assert HostKnows(c, id, c.hosts[m]);
  }

  /** The phases a node's services may be working with: the loaded one, and the one being written. */
  predicate MayUse(h: Host, k: int) {
    h.loaded <= k <= h.written
  }

  /** Installed phases of live nodes never differ by more than one. */
  lemma LivePhasesAdjacent(clusters: seq<Cluster>, steps: seq<Step>, id: string, i: nat, m: string, n: string)
    requires IsRun(clusters, steps, id) && i < |clusters|
    requires Live(clusters[i], m) && Live(clusters[i], n)
    ensures forall a, b | MayUse(clusters[i].hosts[m], a) && MayUse(clusters[i].hosts[n], b) :: -1 <= a - b <= 1
  {
    PhaseSkew(clusters, steps, id, i, m, n);
    PhaseSkew(clusters, steps, id, i, n, m);
    RunKeepsInv(clusters, steps, id, i);
    assert HostShape(clusters[i].hosts[m]) && HostShape(clusters[i].hosts[n]);
  }

  /** The design's safety claim: in every state of every run, whatever mixture of old and new files
      the services of two live nodes use, each accepts the other's certificate and tokens. */
  lemma EveryPeerTrusted(clusters: seq<Cluster>, steps: seq<Step>, id: string, i: nat, m: string, n: string)
    requires IsRun(clusters, steps, id) && i < |clusters|
    requires Live(clusters[i], m) && Live(clusters[i], n)
    ensures forall a, b | MayUse(clusters[i].hosts[m], a) && MayUse(clusters[i].hosts[n], b) ::
      Trusts(MaterialOf(a), MaterialOf(b)) && Trusts(MaterialOf(b), MaterialOf(a))
  {
    LivePhasesAdjacent(clusters, steps, id, i, m, n);
  }

  // ---------------------------------------------------------------- the barrier does open

  /** The cluster after one action of one host that changes only that host's control state. */
  function WithPc(c: Cluster, n: string, pc: Pc): Cluster
    requires n in c.hosts
  {
    c.(hosts := c.hosts[n := c.hosts[n].(pc := pc)])
  }

  lemma CheckPasses(c: Cluster, id: string, n: string)
    requires n in c.hosts && c.hosts[n].master && c.hosts[n].pc.Waiting? && 0 <= c.hosts[n].pc.k <= 1
    requires EveryoneReached(c.nodes, ReadParticipants(c.cm, id), id, ORDERED[c.hosts[n].pc.k])
    ensures var k := c.hosts[n].pc.k;
            && IsStep(c, id, Act(n, CollectNodes), WithPc(c, n, Listed(k, c.nodes)))
            && IsStep(WithPc(c, n, Listed(k, c.nodes)), id, Act(n, Judge(true)), WithPc(c, n, Passed(k)))
  {
    var k := c.hosts[n].pc.k;
    var c1 := WithPc(c, n, Listed(k, c.nodes));
    assert c1.hosts[n := c1.hosts[n].(pc := Passed(k))] == c.hosts[n := c.hosts[n].(pc := Passed(k))];
  }

  /** The object once the advance past phase `k` has landed. */
  function AdvancedTo(cm: ConfigMap, k: int): ConfigMap
    requires 0 <= k <= 1
  {
    cm.(desired := ORDERED[k + 1], version := cm.version + 1)
  }

  lemma AdvanceLands(c: Cluster, id: string, n: string, k: int)
    requires n in c.hosts && c.hosts[n].pc == Passed(k) && 0 <= k <= 1
    requires OwnedBy(c.cm, id) && Index(c.cm.value.desired) <= k
    ensures IsStep(c, id, Act(n, ReadConfigMap), WithPc(c, n, AdvanceList(k, c.cm)))
    ensures IsStep(WithPc(c, n, AdvanceList(k, c.cm)), id, Act(n, ListNodes([])), WithPc(c, n, AdvancePut(k, c.cm, [])))
    ensures IsStep(WithPc(c, n, AdvancePut(k, c.cm, [])), id, Act(n, WriteConfigMap),
                   WithPc(c, n, Waiting(k)).(cm := Some(AdvancedTo(c.cm.value, k))))
  {
    var c1 := WithPc(c, n, AdvanceList(k, c.cm));
    var c2 := WithPc(c, n, AdvancePut(k, c.cm, []));
    assert c1.hosts[n := c1.hosts[n].(pc := c2.hosts[n].pc)] == c2.hosts;
    assert c2.hosts[n := c2.hosts[n].(pc := Waiting(k))] == WithPc(c, n, Waiting(k)).hosts;
    assert Index(ORDERED[k + 1]) == k + 1;
  }

  lemma WithPcBack(c: Cluster, n: string, pc: Pc)
    requires n in c.hosts
    ensures WithPc(WithPc(c, n, pc), n, c.hosts[n].pc) == c
  {
    assert c.hosts[n := c.hosts[n].(pc := pc)][n := c.hosts[n]] == c.hosts;
  }

  lemma FiveStepRun(clusters: seq<Cluster>, steps: seq<Step>, id: string)
    requires |steps| == 5 && |clusters| == 6
    requires IsStep(clusters[0], id, steps[0], clusters[1]) && IsStep(clusters[1], id, steps[1], clusters[2])
    requires IsStep(clusters[2], id, steps[2], clusters[3]) && IsStep(clusters[3], id, steps[3], clusters[4])
    requires IsStep(clusters[4], id, steps[4], clusters[5])
    ensures IsRunFrom(clusters, steps, id)
  {
  }

  /** The names recorded in the ConfigMap, or every node when none are. */
  predicate IsParticipant(recorded: string, m: string) {
    Fields(recorded) == [] || m in Fields(recorded)
  }

  lemma OpensToPoll(c: Cluster, id: string, n: string, k: int)
    requires n in c.hosts && c.hosts[n].pc == Waiting(k) && 0 <= k <= 1 && OwnedBy(c.cm, id)
    ensures var c' := c.(cm := Some(AdvancedTo(c.cm.value, k)));
            ReadProgress(c'.cm, id) == ORDERED[k + 1] && Enabled(c', id, Act(n, Poll))
  {
    assert Index(ORDERED[k + 1]) == k + 1;
  }

  /** Safety is not bought by blocking: when every node that is waited for shows the phase, any one
      master at the barrier opens it by itself, changing nothing else, and may then move on. */
  lemma BarrierOpens(c: Cluster, id: string, n: string) returns (steps: seq<Step>, clusters: seq<Cluster>)
    requires Inv(c, id) && OwnedBy(c.cm, id)
    requires n in c.hosts && c.hosts[n].master && c.hosts[n].pc.Waiting?
    requires Index(c.cm.value.desired) <= c.hosts[n].pc.k
    requires forall m :: m in c.nodes && !c.nodes[m].terminating && IsParticipant(c.cm.value.participants, m) ==>
      Index(ReachedPhase(c.nodes[m].annotation, id)) >= c.hosts[n].pc.k
    ensures IsRunFrom(clusters, steps, id) && clusters[0] == c
    ensures ReadProgress(clusters[|steps|].cm, id) == ORDERED[c.hosts[n].pc.k + 1]
    ensures Enabled(clusters[|steps|], id, Act(n, Poll))
    ensures clusters[|steps|].nodes == c.nodes && clusters[|steps|].hosts == c.hosts
  {
    assert HostShape(c.hosts[n]);
    var k := c.hosts[n].pc.k;
    var passed := WithPc(c, n, Passed(k));
    var advanced := c.(cm := Some(AdvancedTo(c.cm.value, k)));
    assert Index(ORDERED[k]) == k;
    EveryoneReachedIff(c.nodes, ReadParticipants(c.cm, id), id, ORDERED[k]);
    CheckPasses(c, id, n);
    AdvanceLands(passed, id, n, k);
    WithPcBack(c, n, Passed(k));
    assert WithPc(passed, n, Waiting(k)).(cm := Some(AdvancedTo(c.cm.value, k))) == advanced;
    OpensToPoll(c, id, n, k);
    steps := [Act(n, CollectNodes), Act(n, Judge(true)), Act(n, ReadConfigMap),
              Act(n, ListNodes([])), Act(n, WriteConfigMap)];
    clusters := [c, WithPc(c, n, Listed(k, c.nodes)), passed, WithPc(passed, n, AdvanceList(k, c.cm)),
                 WithPc(passed, n, AdvancePut(k, c.cm, [])), advanced];
    FiveStepRun(clusters, steps, id);
  }
}
