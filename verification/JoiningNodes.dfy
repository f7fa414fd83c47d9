/** Nodes that join the cluster during a rotation. They are minted with the new CA and take no part
    in the protocol. */
module JoiningNodes {
  import opened Text
  import opened Phases
  import opened BarrierCheck
  import opened RotationProtocol
  import opened RotationWitnesses
  import CoordStore

  /** What a node created during the rotation works with: the material of a finalized one. */
  function JoinerMaterial(): Material {
    MaterialOf(2)
  }

  /** A node in the cluster that never held the old CA. */
  predicate IsJoiner(c: Cluster, j: string) {
    j in c.nodes && j !in c.hosts
  }

  predicate TrustEachOther(a: Material, b: Material) {
    Trusts(a, b) && Trusts(b, a)
  }

  /** The host and any joiner accept each other, whatever files the host's services have loaded. */
  predicate AcceptsJoiner(h: Host) {
    forall k | h.loaded <= k <= h.written :: TrustEachOther(MaterialOf(k), JoinerMaterial())
  }

  ghost predicate JoinersAccepted(c: Cluster) {
    forall j, m | IsJoiner(c, j) && Live(c, m) :: AcceptsJoiner(c.hosts[m])
  }

  lemma AcceptsJoinerIff(h: Host)
    requires HostShape(h)
    ensures AcceptsJoiner(h) <==> h.loaded >= 1
  {
    assert !AcceptsJoiner(h) || TrustEachOther(MaterialOf(h.loaded), JoinerMaterial());
  }

  /** Once the ConfigMap says finalize, in every state of every run, every live host and every joiner
      accept each other. */
  lemma AcceptedFromFinalize(clusters: seq<Cluster>, steps: seq<Step>, id: string, i: nat)
    requires IsRun(clusters, steps, id) && i < |clusters|
    requires AtLeast(CoordStore.ReadProgress(clusters[i].cm, id), FINALIZE)
    ensures JoinersAccepted(clusters[i])
  {
    RunKeepsInv(clusters, steps, id, i);
    var c := clusters[i];
    assert Index(FINALIZE) == 2 && Index(PREPARE) == 0;
    assert CoordStore.OwnedBy(c.cm, id) && AllReported(c, Index(c.cm.value.desired) - 1);
    forall j, m | IsJoiner(c, j) && Live(c, m) ensures AcceptsJoiner(c.hosts[m]) {
      assert HostShape(c.hosts[m]);
      AcceptsJoinerIff(c.hosts[m]);
    }
  }

  // ---------------------------------------------------------------- at prepare

  predicate Within(h: Host, top: int) {
    h.written <= top && (h.pc.At? ==> h.pc.k <= top)
  }

  /** No host has begun a phase the ConfigMap does not name yet. */
  predicate NotAhead(c: Cluster, id: string) {
    forall n | n in c.hosts :: Within(c.hosts[n], Index(CoordStore.ReadProgress(c.cm, id)))
  }

  lemma WriteClimbs(c: Cluster, id: string, pc: Pc)
    requires CoordStore.IsPast(SeenBy(pc), c.cm)
    ensures Index(CoordStore.ReadProgress(CoordStore.Commit(c.cm, PendingWrite(pc, id)).0, id))
         >= Index(CoordStore.ReadProgress(c.cm, id))
  {
    assert Index(PREPARE) == 0;
  }

  function SeenBy(pc: Pc): Option<CoordStore.ConfigMap> {
    match pc
    case EnsurePut(seen, _) => seen
    case AdvancePut(_, seen, _) => seen
    case _ => None
  }

  /** The phase the ConfigMap names for the rotation never falls. */
  lemma ProgressClimbs(c: Cluster, id: string, step: Step)
    requires Inv(c, id) && Enabled(c, id, step)
    ensures Index(CoordStore.ReadProgress(Apply(c, id, step).cm, id)) >= Index(CoordStore.ReadProgress(c.cm, id))
  {
    if step.Act? && step.action.WriteConfigMap? {
      assert HostKnows(c, id, c.hosts[step.host]);
      WriteClimbs(c, id, c.hosts[step.host].pc);
    }
  }

  lemma ActionNotAhead(c: Cluster, id: string, n: string, action: Action)
    requires ActionEnabled(c, id, n, action) && HostShape(c.hosts[n])
    requires Within(c.hosts[n], Index(CoordStore.ReadProgress(c.cm, id)))
    ensures Within(Apply(c, id, Act(n, action)).hosts[n], Index(CoordStore.ReadProgress(c.cm, id)))
    ensures forall m | m in c.hosts && m != n :: Apply(c, id, Act(n, action)).hosts[m] == c.hosts[m]
  {
    assert Index(CoordStore.ReadProgress(c.cm, id)) >= 0;
    if action.Poll? {
      assert Index(ORDERED[c.hosts[n].pc.k + 1]) == c.hosts[n].pc.k + 1;
    }
  }

  lemma StepNotAhead(c: Cluster, id: string, step: Step)
    requires Inv(c, id) && NotAhead(c, id) && Enabled(c, id, step)
    ensures NotAhead(Apply(c, id, step), id)
  {
    ProgressClimbs(c, id, step);
    if step.Act? {
      ActionNotAhead(c, id, step.host, step.action);
    }
  }

  lemma {:induction false} RunNotAhead(clusters: seq<Cluster>, steps: seq<Step>, id: string, i: nat)
    requires IsRun(clusters, steps, id) && i < |clusters|
    ensures NotAhead(clusters[i], id)
  {
    assert Index(PREPARE) == 0;
    if i > 0 {
      RunNotAhead(clusters, steps, id, i - 1);
      RunKeepsInv(clusters, steps, id, i - 1);
      assert IsStep(clusters[i - 1], id, steps[i - 1], clusters[i - 1 + 1]);
      StepNotAhead(clusters[i - 1], id, steps[i - 1]);
    }
  }

  /** While the ConfigMap says prepare, no host at all accepts a joiner, so none can register with a
      master of the rotation either. */
  lemma NobodyAcceptsAtPrepare(clusters: seq<Cluster>, steps: seq<Step>, id: string, i: nat, m: string)
    requires IsRun(clusters, steps, id) && i < |clusters| && m in clusters[i].hosts
    requires CoordStore.ReadProgress(clusters[i].cm, id) == PREPARE
    ensures !AcceptsJoiner(clusters[i].hosts[m])
  {
    assert Index(PREPARE) == 0;
    RunNotAhead(clusters, steps, id, i);
    RunKeepsInv(clusters, steps, id, i);
    AcceptsJoinerIff(clusters[i].hosts[m]);
  }

  // ---------------------------------------------------------------- before finalize

  function NewNode(): NodeObject {
    NodeObject(false, "", "")
  }

  lemma Admits(clusters: seq<Cluster>, steps: seq<Step>, id: string, j: string)
    returns (clusters': seq<Cluster>, steps': seq<Step>)
    requires IsRun(clusters, steps, id) && IsWord(j) && j !in clusters[|steps|].nodes && j !in clusters[|steps|].hosts
    ensures IsRun(clusters', steps', id) && IsJoiner(clusters'[|steps'|], j)
    ensures clusters'[|steps'|] == clusters[|steps|].(nodes := clusters[|steps|].nodes[j := NewNode()])
  {
    var c := clusters[|steps|];
    clusters', steps' := Extend(clusters, steps, id, Admit(j, NewNode()), c.(nodes := c.nodes[j := NewNode()]));
  }

  /** At cutover: one of two masters has cut over and accepts the joiner, which can register with it;
      the other is still on prepare's files and is at odds with the joiner. */
  lemma SplitAtCutover(a: string, b: string, j: string, id: string)
    returns (clusters: seq<Cluster>, steps: seq<Step>)
    requires IsWord(a) && IsWord(b) && IsWord(j) && a != b && j != a && j != b && AT !in id
    ensures IsRun(clusters, steps, id) && CoordStore.ReadProgress(clusters[|steps|].cm, id) == CUTOVER
    ensures var c := clusters[|steps|];
            && IsJoiner(c, j) && Live(c, a) && Live(c, b) && c.hosts[a].master
            && AcceptsJoiner(c.hosts[a]) && !AcceptsJoiner(c.hosts[b])
  {
    AcceptsJoinerIff(Host(true, 0, 0, 1, 1, Loaded(1)));
    AcceptsJoinerIff(MasterAt(0, Waiting(0)));
    clusters, steps := OneCutsOver(a, b, id);
    clusters, steps := Admits(clusters, steps, id, j);
  }

  /** A run in which a node joins while the ConfigMap says `p` and is at odds with the live master `b`. */
  lemma RejectedBefore(p: Phase, a: string, b: string, j: string, id: string)
    returns (clusters: seq<Cluster>, steps: seq<Step>)
    requires p == PREPARE || p == CUTOVER
    requires IsWord(a) && IsWord(b) && IsWord(j) && a != b && j != a && j != b && AT !in id
    ensures IsRun(clusters, steps, id) && CoordStore.ReadProgress(clusters[|steps|].cm, id) == p
    ensures IsJoiner(clusters[|steps|], j) && Live(clusters[|steps|], b)
    ensures !AcceptsJoiner(clusters[|steps|].hosts[b])
  {
    if p == PREPARE {
      TwoMastersStart(a, b, id);
      clusters, steps := Admits([TwoMasters(a, b)], [], id, j);
      NobodyAcceptsAtPrepare(clusters, steps, id, |steps|, b);
    } else {
      clusters, steps := SplitAtCutover(a, b, j, id);
    }
  }

  // ---------------------------------------------------------------- the exact phases

  ghost predicate AcceptedInRun(p: Phase, id: string, clusters: seq<Cluster>, steps: seq<Step>, i: nat) {
    IsRun(clusters, steps, id) && i < |clusters| && CoordStore.ReadProgress(clusters[i].cm, id) == p
    ==> JoinersAccepted(clusters[i])
  }

  /** Joining is safe whenever the ConfigMap says `p`. */
  ghost predicate AlwaysAccepted(p: Phase, id: string) {
    forall clusters: seq<Cluster>, steps: seq<Step>, i: nat :: AcceptedInRun(p, id, clusters, steps, i)
  }

  /** Nodes may join without being at odds with the rotating ones exactly once the ConfigMap says
      finalize, which is something whoever adds them can read. */
  lemma JoiningIsSafeIff(p: Phase, id: string)
    requires Valid(p) && AT !in id
    ensures AlwaysAccepted(p, id) <==> AtLeast(p, FINALIZE)
  {
    assert Index(PREPARE) == 0 && Index(CUTOVER) == 1 && Index(FINALIZE) == 2 && Index(DONE) == 3;
    if AtLeast(p, FINALIZE) {
      forall clusters: seq<Cluster>, steps: seq<Step>, i: nat ensures AcceptedInRun(p, id, clusters, steps, i) {
        if IsRun(clusters, steps, id) && i < |clusters| && CoordStore.ReadProgress(clusters[i].cm, id) == p {
          AcceptedFromFinalize(clusters, steps, id, i);
        }
      }
    } else {
      var clusters, steps := RejectedBefore(p, "a", "b", "j", id);
      assert !JoinersAccepted(clusters[|steps|]);
      assert !AcceptedInRun(p, id, clusters, steps, |steps|);
    }
  }

  ghost predicate IsSplit(p: Phase, id: string, clusters: seq<Cluster>, steps: seq<Step>, i: nat,
                          m: string, n: string)
  {
    && IsRun(clusters, steps, id) && i < |clusters| && CoordStore.ReadProgress(clusters[i].cm, id) == p
    && (exists j :: IsJoiner(clusters[i], j))
    && Live(clusters[i], m) && AcceptsJoiner(clusters[i].hosts[m])
    && Live(clusters[i], n) && !AcceptsJoiner(clusters[i].hosts[n])
  }

  /** Counting only joiners that some live node accepts, so that they could register at all: that one
      of them is at odds with another live node can happen exactly while the ConfigMap says cutover. */
  lemma SplitIff(p: Phase, id: string)
    requires Valid(p) && AT !in id
    ensures (exists clusters: seq<Cluster>, steps: seq<Step>, i: nat, m, n :: IsSplit(p, id, clusters, steps, i, m, n))
       <==> p == CUTOVER
  {
    assert Index(PREPARE) == 0 && Index(CUTOVER) == 1 && Index(FINALIZE) == 2 && Index(DONE) == 3;
    if p == CUTOVER {
      var clusters, steps := SplitAtCutover("a", "b", "j", id);
      assert IsJoiner(clusters[|steps|], "j");
      assert IsSplit(p, id, clusters, steps, |steps|, "a", "b");
    } else {
      forall clusters: seq<Cluster>, steps: seq<Step>, i: nat, m, n ensures !IsSplit(p, id, clusters, steps, i, m, n) {
        if IsRun(clusters, steps, id) && i < |clusters| && CoordStore.ReadProgress(clusters[i].cm, id) == p {
          if p == PREPARE {
            if m in clusters[i].hosts {
              NobodyAcceptsAtPrepare(clusters, steps, id, i, m);
            }
          } else {
            AcceptedFromFinalize(clusters, steps, id, i);
          }
        }
      }
    }
  }
}
