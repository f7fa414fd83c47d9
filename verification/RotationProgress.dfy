/** That a rotation gets somewhere: phases complete, joiners do not hold up a barrier, and a hold parks
    the rotation only before finalize. */
module RotationProgress {
  import opened Text
  import opened Phases
  import opened BarrierCheck
  import opened RotationProtocol
  import CoordStore

  // ---------------------------------------------------------------- the stages

  /** The stages of the design: everything old, bundle trust with old leaves, bundle trust with new
      leaves, everything new. No stage changes trust and presented material at once. */
  lemma StagesFollowDesign()
    ensures MaterialOf(-1) == Material(OnlyOld, Old, OnlyOld, Old)
    ensures MaterialOf(0) == Material(Bundle, Old, Bundle, Old)
    ensures MaterialOf(1) == Material(Bundle, New, Bundle, New)
    ensures MaterialOf(2) == Material(OnlyNew, New, OnlyNew, New)
    ensures forall k :: -1 <= k < 2 ==>
      && (MaterialOf(k).ca == MaterialOf(k + 1).ca || MaterialOf(k).leaf == MaterialOf(k + 1).leaf)
      && (MaterialOf(k).saVerify == MaterialOf(k + 1).saVerify || MaterialOf(k).saSign == MaterialOf(k + 1).saSign)
  {
  }

  /** A verifier accepts what its trust covers: one generation, or both with a bundle. */
  lemma AcceptsIff(mode: TrustMode, presented: Generation)
    ensures Accepts(mode, presented)
       <==> mode == Bundle || (mode == OnlyOld && presented == Old) || (mode == OnlyNew && presented == New)
  {
  }

  // ---------------------------------------------------------------- phases

  lemma FourStepRun(clusters: seq<Cluster>, steps: seq<Step>, id: string)
    requires |steps| == 4 && |clusters| == 5
    requires IsStep(clusters[0], id, steps[0], clusters[1]) && IsStep(clusters[1], id, steps[1], clusters[2])
    requires IsStep(clusters[2], id, steps[2], clusters[3]) && IsStep(clusters[3], id, steps[3], clusters[4])
    ensures IsRunFrom(clusters, steps, id)
  {
  }

  function WithHost(c: Cluster, n: string, h: Host): Cluster {
    c.(hosts := c.hosts[n := h])
  }

  lemma WithHostTwice(c: Cluster, n: string, a: Host, b: Host)
    ensures WithHost(WithHost(c, n, a), n, b) == WithHost(c, n, b)
  {
    assert c.hosts[n := a][n := b] == c.hosts[n := b];
  }

  function PhaseSteps(n: string): seq<Step> {
    [Act(n, Enter(false)), Act(n, LoadServices), Act(n, Report), Act(n, Save)]
  }

  /** The first two steps: the phase's files, then the services that load them. */
  lemma InstallSteps(c: Cluster, id: string, n: string, k: int) returns (h1: Host, h2: Host)
    requires n in c.hosts && 0 <= k <= 2
    requires c.hosts[n].pc == At(k) && c.hosts[n].completed < k
    ensures h1 == c.hosts[n].(pc := Installing(k), written := CoordStore.Max(c.hosts[n].written, k))
    ensures h2 == h1.(pc := Loaded(k), loaded := CoordStore.Max(h1.loaded, k))
    ensures IsStep(c, id, Act(n, Enter(false)), WithHost(c, n, h1))
    ensures IsStep(WithHost(c, n, h1), id, Act(n, LoadServices), WithHost(c, n, h2))
  {
    h1 := c.hosts[n].(pc := Installing(k), written := CoordStore.Max(c.hosts[n].written, k));
    h2 := h1.(pc := Loaded(k), loaded := CoordStore.Max(h1.loaded, k));
    WithHostTwice(c, n, h1, h2);
  }

  /** The other two: the report, then the state file. */
  lemma ReportSteps(c: Cluster, id: string, n: string, k: int) returns (h3: Host, h4: Host)
    requires n in c.hosts && n in c.nodes && 0 <= k <= 2 && c.hosts[n].pc == Loaded(k)
    ensures h3 == c.hosts[n].(pc := Reported(k), reported := CoordStore.Max(c.hosts[n].reported, k))
    ensures h4 == h3.(completed := k, pc := if k < 2 then Waiting(k) else Finished)
    ensures var d := c.(nodes := SetAnnotation(c.nodes, n, k, id));
            && IsStep(c, id, Act(n, Report), WithHost(d, n, h3))
            && IsStep(WithHost(d, n, h3), id, Act(n, Save), WithHost(d, n, h4))
  {
    h3 := c.hosts[n].(pc := Reported(k), reported := CoordStore.Max(c.hosts[n].reported, k));
    h4 := h3.(completed := k, pc := if k < 2 then Waiting(k) else Finished);
    WithHostTwice(c.(nodes := SetAnnotation(c.nodes, n, k, id)), n, h3, h4);
  }

  /** A node that has come to a phase it has not completed installs it, reports it and saves it in four
      steps of its own; it then waits at the barrier, or after finalize is done. */
  lemma PhaseCompletes(c: Cluster, id: string, n: string, k: int) returns (clusters: seq<Cluster>)
    requires n in c.hosts && n in c.nodes && 0 <= k <= 2
    requires c.hosts[n].pc == At(k) && c.hosts[n].completed < k
    ensures IsRunFrom(clusters, PhaseSteps(n), id) && clusters[0] == c && n in clusters[4].hosts
    ensures var h, h' := c.hosts[n], clusters[4].hosts[n];
            && h'.completed == k && h'.reported >= k && h'.loaded >= k && h'.written >= k && h'.master == h.master
            && h'.pc == if k < 2 then Waiting(k) else Finished
    ensures clusters[4].cm == c.cm
    ensures clusters[4].nodes == c.nodes[n := c.nodes[n].(annotation := StatusText(ORDERED[k], id))]
    ensures forall m :: m in c.hosts && m != n ==> m in clusters[4].hosts && clusters[4].hosts[m] == c.hosts[m]
  {
    var h1, h2 := InstallSteps(c, id, n, k);
    var loaded := WithHost(c, n, h2);
    var h3, h4 := ReportSteps(loaded, id, n, k);
    var d := loaded.(nodes := SetAnnotation(c.nodes, n, k, id));
    clusters := [c, WithHost(c, n, h1), loaded, WithHost(d, n, h3), WithHost(d, n, h4)];
    FourStepRun(clusters, PhaseSteps(n), id);
  }

  function ResumeSteps(n: string, master: bool): seq<Step> {
    if master then [Act(n, Start), Act(n, ReadConfigMap), Act(n, Reassert(true))]
    else [Act(n, Start), Act(n, Reassert(true))]
  }

  /** A process that starts again reports the phase in its state file once more and goes through the
      phases from the first. */
  lemma RestartReports(c: Cluster, id: string, n: string) returns (clusters: seq<Cluster>)
    requires n in c.hosts && n in c.nodes && c.hosts[n].pc.Idle? && -1 <= c.hosts[n].completed <= 2
    requires c.hosts[n].master ==> CoordStore.OwnedBy(c.cm, id)
    ensures IsRunFrom(clusters, ResumeSteps(n, c.hosts[n].master), id) && clusters[0] == c
    ensures var d, done := clusters[|clusters| - 1], c.hosts[n].completed;
            && d.cm == c.cm && d.hosts == c.hosts[n := c.hosts[n].(pc := At(0))]
            && d.nodes == if done < 0 then c.nodes
                          else c.nodes[n := c.nodes[n].(annotation := StatusText(ORDERED[done], id))]
  {
    var h := c.hosts[n];
    var last := h.(pc := At(0));
    var d := c.(nodes := SetAnnotation(c.nodes, n, h.completed, id), hosts := c.hosts[n := last]);
    var refresh := WithHost(c, n, h.(pc := Refresh));
    WithHostTwice(c, n, h.(pc := Refresh), last);
    assert IsStep(refresh, id, Act(n, Reassert(true)), d);
    if h.master {
      var get := WithHost(c, n, h.(pc := EnsureGet));
      WithHostTwice(c, n, h.(pc := EnsureGet), h.(pc := Refresh));
      assert IsStep(c, id, Act(n, Start), get) && IsStep(get, id, Act(n, ReadConfigMap), refresh);
      clusters := [c, get, refresh, d];
    } else {
      assert IsStep(c, id, Act(n, Start), refresh);
      clusters := [c, refresh, d];
    }
  }

  /** A phase in the state file is not done again: the node goes straight to its barrier, or is done. */
  lemma CompletedIsSkipped(c: Cluster, id: string, n: string, k: int, held: bool)
    requires n in c.hosts && c.hosts[n].pc == At(k) && 0 <= k <= 2 && c.hosts[n].completed >= k
    ensures Apply(c, id, Act(n, Enter(held)))
         == WithHost(c, n, c.hosts[n].(pc := if k < 2 then Waiting(k) else Finished))
  {
  }

  /** A hold matters only before finalize, where it ends the run and leaves the node as it is, on
      bundle trust; prepare and cutover are entered all the same. */
  lemma HoldParks(c: Cluster, id: string, n: string, k: int)
    requires n in c.hosts && c.hosts[n].pc == At(k) && 0 <= k <= 2
    ensures k < 2 || c.hosts[n].completed >= 2 ==>
      Apply(c, id, Act(n, Enter(true))) == Apply(c, id, Act(n, Enter(false)))
    ensures k == 2 && c.hosts[n].completed < 2 ==>
      Apply(c, id, Act(n, Enter(true))) == WithHost(c, n, c.hosts[n].(pc := Idle))
  {
  }

  // ---------------------------------------------------------------- recorded participants

  lemma WriteKeepsParticipants(cm: Option<CoordStore.ConfigMap>, id: string, pc: Pc)
    requires CoordStore.OwnedBy(cm, id)
    requires match pc
             case EnsurePut(seen, _) => CoordStore.IsPast(seen, cm)
             case AdvancePut(_, seen, _) => CoordStore.IsPast(seen, cm)
             case _ => true
    ensures var cm' := CoordStore.Commit(cm, PendingWrite(pc, id)).0;
            CoordStore.OwnedBy(cm', id) && cm'.value.participants == cm.value.participants
  {
  }

  /** Once recorded, the participants of a rotation stay what they are for the rest of the run. */
  lemma {:induction false} ParticipantsStay(clusters: seq<Cluster>, steps: seq<Step>, id: string, i: nat, j: nat)
    requires IsRun(clusters, steps, id) && i <= j < |clusters| && CoordStore.OwnedBy(clusters[i].cm, id)
    ensures CoordStore.OwnedBy(clusters[j].cm, id)
    ensures clusters[j].cm.value.participants == clusters[i].cm.value.participants
  {
    if i < j {
      ParticipantsStay(clusters, steps, id, i, j - 1);
      RunKeepsInv(clusters, steps, id, j - 1);
      var c, step := clusters[j - 1], steps[j - 1];
      assert IsStep(clusters[j - 1], id, steps[j - 1], clusters[j - 1 + 1]);
      if step.Act? && step.action.WriteConfigMap? {
        assert HostKnows(c, id, c.hosts[step.host]);
        WriteKeepsParticipants(c.cm, id, c.hosts[step.host].pc);
      }
    }
  }

  /** What the check says in a state: nobody it waits for is short of phase `k`. */
  ghost predicate CheckPassed(c: Cluster, id: string, k: int)
    requires 0 <= k <= 3
  {
    EveryoneReached(c.nodes, CoordStore.ReadParticipants(c.cm, id), id, ORDERED[k])
  }

  lemma CheckInNames(c: Cluster, id: string, names: seq<string>, k: int)
    requires CoordStore.OwnedBy(c.cm, id) && c.cm.value.participants == Join(names, " ") && AllWords(names)
    requires names != [] && 0 <= k <= 3
    ensures CheckPassed(c, id, k) <==> EveryoneReached(c.nodes, names, id, ORDERED[k])
    ensures CheckPassed(c, id, k) <==>
      forall m :: m in names && m in c.nodes && !c.nodes[m].terminating ==>
        Index(ReachedPhase(c.nodes[m].annotation, id)) >= k
  {
    CoordStore.OwnReadsBack(c.cm.value, names);
    EveryoneReachedIff(c.nodes, names, id, ORDERED[k]);
    assert Index(ORDERED[k]) == k;
  }

  /** With recorded participants a node that joins outside them leaves the check's result as it was,
      reporting or not, in every run. */
  lemma AdmitLeavesCheck(clusters: seq<Cluster>, steps: seq<Step>, id: string, i: nat, n: string, obj: NodeObject,
                         names: seq<string>, k: int)
    requires IsRun(clusters, steps, id) && i < |steps| && steps[i] == Admit(n, obj) && 0 <= k <= 3
    requires clusters[i].cm.Some? && clusters[i].cm.value.rotationId == id
    requires clusters[i].cm.value.participants == Join(names, " ") && AllWords(names) && names != [] && n !in names
    ensures CheckPassed(clusters[i + 1], id, k) <==> CheckPassed(clusters[i], id, k)
    ensures CheckPassed(clusters[i], id, k) <==>
      forall m :: m in names && m in clusters[i].nodes && !clusters[i].nodes[m].terminating ==>
        Index(ReachedPhase(clusters[i].nodes[m].annotation, id)) >= k
  {
    var c, d := clusters[i], clusters[i + 1];
    assert IsStep(c, id, steps[i], d);
    assert d == c.(nodes := c.nodes[n := obj]);
    CheckInNames(c, id, names, k);
    CheckInNames(d, id, names, k);
    OutsiderIgnored(c.nodes, names, n, obj, id, ORDERED[k]);
  }

  /** The names a rotation may record are the nodes in the cluster that are not terminating, or none
      when the list call fails. */
  lemma ListedAreCurrent(c: Cluster, id: string, n: string, names: seq<string>, m: string)
    requires Enabled(c, id, Act(n, ListNodes(names))) && names != []
    ensures m in names <==> m in c.nodes && !c.nodes[m].terminating
  {
  }

  /** Nodes that terminate or leave never hold it up. */
  lemma DepartureLeavesCheck(c: Cluster, id: string, n: string, k: int)
    requires n in c.nodes && 0 <= k <= 3 && CheckPassed(c, id, k)
    ensures CheckPassed(Apply(c, id, Terminate(n)), id, k) && CheckPassed(Apply(c, id, Remove(n)), id, k)
  {
    var participants := CoordStore.ReadParticipants(c.cm, id);
    EveryoneReachedIff(c.nodes, participants, id, ORDERED[k]);
    EveryoneReachedIff(Apply(c, id, Terminate(n)).nodes, participants, id, ORDERED[k]);
    EveryoneReachedIff(Apply(c, id, Remove(n)).nodes, participants, id, ORDERED[k]);
  }

  /** So a node that joins and never reports does not keep the barrier closed for the others. */
  lemma OpensDespiteJoiner(c: Cluster, id: string, n: string, j: string, obj: NodeObject, names: seq<string>)
    returns (steps: seq<Step>, clusters: seq<Cluster>)
    requires Inv(c, id) && Enabled(c, id, Admit(j, obj)) && CoordStore.OwnedBy(c.cm, id)
    requires c.cm.value.participants == Join(names, " ") && AllWords(names) && names != [] && j !in names
    requires n in c.hosts && c.hosts[n].master && c.hosts[n].pc.Waiting?
    requires Index(c.cm.value.desired) <= c.hosts[n].pc.k
    requires forall m :: m in names && m in c.nodes && !c.nodes[m].terminating ==>
      Index(ReachedPhase(c.nodes[m].annotation, id)) >= c.hosts[n].pc.k
    ensures IsRunFrom(clusters, steps, id) && clusters[0] == c.(nodes := c.nodes[j := obj])
    ensures CoordStore.ReadProgress(clusters[|steps|].cm, id) == ORDERED[c.hosts[n].pc.k + 1]
  {
    assert HostShape(c.hosts[n]);
    var d := Apply(c, id, Admit(j, obj));
    StepKeepsInv(c, id, Admit(j, obj));
    CoordStore.OwnReadsBack(c.cm.value, names);
    assert Fields(c.cm.value.participants) == names;
    steps, clusters := BarrierOpens(d, id, n);
  }
}
