/** What the rotation id's spelling does to a whole rotation. */
module RotationIds {
  import opened Text
  import opened Phases
  import opened BarrierCheck
  import opened RotationProtocol
  import opened RotationWitnesses
  import CoordStore

  /** With an '@' in the id no annotation is ever read as a report. */
  lemma NothingReadBack(value: string, id: string)
    requires AT in id
    ensures ReachedPhase(value, id) == "" && Index("") < 0
  {
    var at := LastIndex(value, AT);
    assert AT !in value[at + 1..];
  }

  predicate IsBarred(pc: Pc) {
    !pc.Passed? && !pc.AdvanceList? && !pc.AdvancePut?
  }

  /** Nobody has passed the first barrier. */
  predicate IsStuck(c: Cluster, id: string) {
    && CoordStore.ReadProgress(c.cm, id) == PREPARE
    && forall n | n in c.hosts :: IsBarred(c.hosts[n].pc)
  }

  lemma LiveBefore(c: Cluster, id: string, step: Step, m: string)
    requires Enabled(c, id, step) && Live(Apply(c, id, step), m)
    ensures Live(c, m)
  {
  }

  /** A live host's report is missing from every check. */
  lemma CheckFails(c: Cluster, id: string, h: Host, readOk: bool, m: string)
    requires AT in id && Live(c, m) && h.pc.Listed? && 0 <= h.pc.k <= 1
    requires HostKnows(c, id, h) && ConfigMapSound(c, id)
    ensures !EveryoneReached(h.pc.nodes, if readOk then CoordStore.ReadParticipants(c.cm, id) else [], id,
                             ORDERED[h.pc.k])
  {
    var participants := if readOk then CoordStore.ReadParticipants(c.cm, id) else [];
    assert m in h.pc.nodes && !h.pc.nodes[m].terminating;
    NothingReadBack(h.pc.nodes[m].annotation, id);
    assert Index(ORDERED[h.pc.k]) == h.pc.k;
    assert Blocks(h.pc.nodes, m, id, ORDERED[h.pc.k]);
    assert Waits(h.pc.nodes, participants, m);
  }

  lemma LocalStaysStuck(c: Cluster, id: string, n: string, action: Action, m: string)
    requires AT in id && Inv(c, id) && ActionEnabled(c, id, n, action) && IsLocal(action)
    requires Live(c, m) && IsStuck(c, id)
    ensures IsBarred(LocalEffect(c, id, c.hosts[n], action).pc)
  {
    var h := c.hosts[n];
    assert HostShape(h) && HostKnows(c, id, h) && IsBarred(h.pc);
    if action.Judge? {
      CheckFails(c, id, h, action.readOk, m);
    }
  }

  /** The only write left is the claim, which starts at prepare. */
  lemma ClaimStaysStuck(c: Cluster, id: string, pc: Pc, accepted: bool)
    requires CoordStore.ReadProgress(c.cm, id) == PREPARE && IsBarred(pc)
    ensures CoordStore.ReadProgress(CoordStore.Commit(c.cm, PendingWrite(pc, id)).0, id) == PREPARE
    ensures IsBarred(AfterWrite(pc, accepted))
  {
  }

  lemma ActionStaysStuck(c: Cluster, id: string, n: string, action: Action, m: string)
    requires AT in id && Inv(c, id) && ActionEnabled(c, id, n, action) && Live(c, m) && IsStuck(c, id)
    ensures IsStuck(Apply(c, id, Act(n, action)), id)
  {
    var pc := c.hosts[n].pc;
    assert IsBarred(pc);
    if IsLocal(action) {
      LocalStaysStuck(c, id, n, action, m);
    } else if action.WriteConfigMap? {
      ClaimStaysStuck(c, id, pc, CoordStore.Commit(c.cm, PendingWrite(pc, id)).1);
    }
  }

  lemma StaysStuck(c: Cluster, id: string, step: Step, m: string)
    requires AT in id && Inv(c, id) && Enabled(c, id, step) && Live(c, m) && IsStuck(c, id)
    ensures IsStuck(Apply(c, id, step), id)
  {
    if step.Act? {
      ActionStaysStuck(c, id, step.host, step.action, m);
    }
  }

  lemma {:induction false} NeverLeavesPrepare(clusters: seq<Cluster>, steps: seq<Step>, id: string, i: nat, m: string)
    requires IsRun(clusters, steps, id) && i < |clusters| && AT in id && Live(clusters[i], m)
    ensures IsStuck(clusters[i], id)
  {
    if i > 0 {
      assert IsStep(clusters[i - 1], id, steps[i - 1], clusters[i - 1 + 1]);
      LiveBefore(clusters[i - 1], id, steps[i - 1], m);
      NeverLeavesPrepare(clusters, steps, id, i - 1, m);
      RunKeepsInv(clusters, steps, id, i - 1);
      StaysStuck(clusters[i - 1], id, steps[i - 1], m);
    }
  }

  ghost predicate LeavesPrepare(clusters: seq<Cluster>, steps: seq<Step>, id: string, i: nat, m: string) {
    && IsRun(clusters, steps, id) && i < |clusters| && Live(clusters[i], m)
    && CoordStore.ReadProgress(clusters[i].cm, id) != PREPARE
  }

  /** A rotation can get past prepare with one of its hosts still in the cluster exactly when its id
      has no '@': otherwise every report is lost and the first barrier never opens. */
  lemma CanLeavePrepareIff(id: string)
    ensures (exists clusters: seq<Cluster>, steps: seq<Step>, i: nat, m :: LeavesPrepare(clusters, steps, id, i, m))
       <==> AT !in id
  {
    if AT in id {
      forall clusters: seq<Cluster>, steps: seq<Step>, i: nat, m ensures !LeavesPrepare(clusters, steps, id, i, m) {
        if IsRun(clusters, steps, id) && i < |clusters| && Live(clusters[i], m) {
          NeverLeavesPrepare(clusters, steps, id, i, m);
        }
      }
    } else {
      var clusters, steps := BarrierOpened("a", "b", id);
      assert LeavesPrepare(clusters, steps, id, |steps|, "a");
    }
  }
}
