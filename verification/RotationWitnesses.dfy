/** Concrete beginnings of rotations, built step by step, for the statements that need a run. */
module RotationWitnesses {
  import opened Text
  import opened Phases
  import opened BarrierCheck
  import opened RotationProtocol
  import CoordStore

  // ---------------------------------------------------------------- building runs

  lemma Extend(clusters: seq<Cluster>, steps: seq<Step>, id: string, step: Step, c: Cluster)
    returns (clusters': seq<Cluster>, steps': seq<Step>)
    requires IsRun(clusters, steps, id) && IsStep(clusters[|steps|], id, step, c)
    ensures IsRun(clusters', steps', id) && clusters'[|steps'|] == c
  {
    clusters', steps' := clusters + [c], steps + [step];
    forall i | 0 <= i < |steps'| ensures IsStep(clusters'[i], id, steps'[i], clusters'[i + 1]) {
      if i < |steps| {
        assert IsStep(clusters[i], id, steps[i], clusters[i + 1]);
      }
    }
  }

  lemma Join(clusters: seq<Cluster>, steps: seq<Step>, id: string, after: seq<Cluster>, further: seq<Step>)
    returns (clusters': seq<Cluster>, steps': seq<Step>)
    requires IsRun(clusters, steps, id) && IsRunFrom(after, further, id) && after[0] == clusters[|steps|]
    ensures IsRun(clusters', steps', id) && clusters'[|steps'|] == after[|further|]
  {
    clusters', steps' := clusters + after[1..], steps + further;
    forall i | 0 <= i < |steps'| ensures IsStep(clusters'[i], id, steps'[i], clusters'[i + 1]) {
      if i < |steps| {
        assert IsStep(clusters[i], id, steps[i], clusters[i + 1]);
      } else {
        var j := i - |steps|;
        assert IsStep(after[j], id, further[j], after[j + 1]);
      }
    }
  }

  /** The cluster with one host's record replaced. */
  function With(c: Cluster, n: string, h: Host): Cluster {
    c.(hosts := c.hosts[n := h])
  }

  lemma WithTwice(c: Cluster, n: string, a: Host, b: Host)
    ensures With(With(c, n, a), n, b) == With(c, n, b)
  {
    assert c.hosts[n := a][n := b] == c.hosts[n := b];
  }

  /** One action of `n` that touches nothing but its own record, which is `h` now. */
  lemma LocalStep(c: Cluster, id: string, n: string, h: Host, action: Action, h': Host)
    requires IsLocal(action) && n in c.hosts && ActionEnabled(With(c, n, h), id, n, action)
    requires h' == LocalEffect(With(c, n, h), id, h, action)
    ensures IsStep(With(c, n, h), id, Act(n, action), With(c, n, h'))
  {
    WithTwice(c, n, h, h');
  }

  // ---------------------------------------------------------------- one master

  function MasterAt(k: int, pc: Pc): Host {
    Host(true, k, k, k, k, pc)
  }

  predicate IsFresh(c: Cluster, n: string) {
    Live(c, n) && c.hosts[n] == MasterAt(-1, Idle)
  }

  /** A master that finds no ConfigMap claims it, listing no participants. */
  lemma Claims(clusters: seq<Cluster>, steps: seq<Step>, id: string, n: string)
    returns (clusters': seq<Cluster>, steps': seq<Step>)
    requires IsRun(clusters, steps, id) && IsFresh(clusters[|steps|], n) && clusters[|steps|].cm.None?
    ensures IsRun(clusters', steps', id)
    ensures var c := clusters[|steps|];
            clusters'[|steps'|] == With(c, n, MasterAt(-1, Refresh)).(cm := Some(CoordStore.FreshData(1, id, [])))
  {
    var c := clusters[|steps|];
    var h := MasterAt(-1, Idle);
    var cm := Some(CoordStore.FreshData(1, id, []));
    var getting, listing := h.(pc := EnsureGet), h.(pc := EnsureList(None));
    var putting, done := h.(pc := EnsurePut(None, [])), MasterAt(-1, Refresh);
    assert With(c, n, h) == c by {
      assert c.hosts[n := h] == c.hosts;
    }
    LocalStep(c, id, n, h, Start, getting);
    LocalStep(c, id, n, getting, ReadConfigMap, listing);
    LocalStep(c, id, n, listing, ListNodes([]), putting);
    WithTwice(c, n, putting, done);
    assert IsStep(With(c, n, putting), id, Act(n, WriteConfigMap), With(c, n, done).(cm := cm));
    clusters', steps' := Extend(clusters, steps, id, Act(n, Start), With(c, n, getting));
    clusters', steps' := Extend(clusters', steps', id, Act(n, ReadConfigMap), With(c, n, listing));
    clusters', steps' := Extend(clusters', steps', id, Act(n, ListNodes([])), With(c, n, putting));
    clusters', steps' := Extend(clusters', steps', id, Act(n, WriteConfigMap), With(c, n, done).(cm := cm));
  }

  /** A master that finds the ConfigMap claimed for its rotation goes on with it. */
  lemma Follows(clusters: seq<Cluster>, steps: seq<Step>, id: string, n: string)
    returns (clusters': seq<Cluster>, steps': seq<Step>)
    requires IsRun(clusters, steps, id) && IsFresh(clusters[|steps|], n)
    requires CoordStore.OwnedBy(clusters[|steps|].cm, id)
    ensures IsRun(clusters', steps', id)
    ensures clusters'[|steps'|] == With(clusters[|steps|], n, MasterAt(-1, Refresh))
  {
    var c := clusters[|steps|];
    var h, getting, done := MasterAt(-1, Idle), MasterAt(-1, EnsureGet), MasterAt(-1, Refresh);
    assert With(c, n, h) == c by {
      assert c.hosts[n := h] == c.hosts;
    }
    LocalStep(c, id, n, h, Start, getting);
    LocalStep(c, id, n, getting, ReadConfigMap, done);
    clusters', steps' := Extend(clusters, steps, id, Act(n, Start), With(c, n, getting));
    clusters', steps' := Extend(clusters', steps', id, Act(n, ReadConfigMap), With(c, n, done));
  }

  /** It installs, reports and saves prepare. */
  lemma Prepares(clusters: seq<Cluster>, steps: seq<Step>, id: string, n: string)
    returns (clusters': seq<Cluster>, steps': seq<Step>)
    requires IsRun(clusters, steps, id) && Live(clusters[|steps|], n)
    requires clusters[|steps|].hosts[n] == MasterAt(-1, Refresh)
    ensures IsRun(clusters', steps', id)
    ensures var c := clusters[|steps|];
            clusters'[|steps'|]
            == With(c, n, MasterAt(0, Waiting(0))).(nodes := SetAnnotation(c.nodes, n, 0, id))
  {
    var c := clusters[|steps|];
    var h, starting := MasterAt(-1, Refresh), MasterAt(-1, At(0));
    var installing, loaded := Host(true, -1, -1, -1, 0, Installing(0)), Host(true, -1, -1, 0, 0, Loaded(0));
    var reported, saved := Host(true, -1, 0, 0, 0, Reported(0)), MasterAt(0, Waiting(0));
    var d := c.(nodes := SetAnnotation(c.nodes, n, 0, id));
    assert With(c, n, h) == c by {
      assert c.hosts[n := h] == c.hosts;
    }
    WithTwice(c, n, h, starting);
    assert IsStep(c, id, Act(n, Reassert(false)), With(c, n, starting));
    LocalStep(c, id, n, starting, Enter(false), installing);
    LocalStep(c, id, n, installing, LoadServices, loaded);
    WithTwice(c, n, loaded, reported);
    assert IsStep(With(c, n, loaded), id, Act(n, Report), With(d, n, reported));
    LocalStep(d, id, n, reported, Save, saved);
    clusters', steps' := Extend(clusters, steps, id, Act(n, Reassert(false)), With(c, n, starting));
    clusters', steps' := Extend(clusters', steps', id, Act(n, Enter(false)), With(c, n, installing));
    clusters', steps' := Extend(clusters', steps', id, Act(n, LoadServices), With(c, n, loaded));
    clusters', steps' := Extend(clusters', steps', id, Act(n, Report), With(d, n, reported));
    clusters', steps' := Extend(clusters', steps', id, Act(n, Save), With(d, n, saved));
  }

  /** Past the first barrier, its services load the files of cutover. */
  lemma CutsOver(clusters: seq<Cluster>, steps: seq<Step>, id: string, n: string)
    returns (clusters': seq<Cluster>, steps': seq<Step>)
    requires IsRun(clusters, steps, id) && n in clusters[|steps|].hosts
    requires clusters[|steps|].hosts[n] == MasterAt(0, Waiting(0))
    requires AtLeast(CoordStore.ReadProgress(clusters[|steps|].cm, id), CUTOVER)
    ensures IsRun(clusters', steps', id)
    ensures clusters'[|steps'|] == With(clusters[|steps|], n, Host(true, 0, 0, 1, 1, Loaded(1)))
  {
    var c := clusters[|steps|];
    var h, next := MasterAt(0, Waiting(0)), MasterAt(0, At(1));
    var installing, loaded := Host(true, 0, 0, 0, 1, Installing(1)), Host(true, 0, 0, 1, 1, Loaded(1));
    assert With(c, n, h) == c by {
      assert c.hosts[n := h] == c.hosts;
    }
    LocalStep(c, id, n, h, Poll, next);
    LocalStep(c, id, n, next, Enter(false), installing);
    LocalStep(c, id, n, installing, LoadServices, loaded);
    clusters', steps' := Extend(clusters, steps, id, Act(n, Poll), With(c, n, next));
    clusters', steps' := Extend(clusters', steps', id, Act(n, Enter(false)), With(c, n, installing));
    clusters', steps' := Extend(clusters', steps', id, Act(n, LoadServices), With(c, n, loaded));
  }

  // ---------------------------------------------------------------- two masters

  /** Two nodes with their annotations and hosts. */
  function Two(a: string, b: string, sa: string, sb: string, cm: Option<CoordStore.ConfigMap>,
               ha: Host, hb: Host): Cluster
  {
    Cluster(map[a := NodeObject(false, sa, ""), b := NodeObject(false, sb, "")], cm, map[a := ha, b := hb])
  }

  /** Two masters of an old-CA cluster, before the rotation. */
  function TwoMasters(a: string, b: string): Cluster {
    Two(a, b, "", "", None, MasterAt(-1, Idle), MasterAt(-1, Idle))
  }

  lemma TwoMastersStart(a: string, b: string, id: string)
    requires IsWord(a) && IsWord(b) && a != b
    ensures IsRun([TwoMasters(a, b)], [], id)
  {
    assert ReachedPhase("", id) == "";
    assert Index("") == -1;
  }

  lemma WithFirst(a: string, b: string, sa: string, sb: string, cm: Option<CoordStore.ConfigMap>,
                  ha: Host, hb: Host, h: Host, id: string)
    requires a != b
    ensures With(Two(a, b, sa, sb, cm, ha, hb), a, h) == Two(a, b, sa, sb, cm, h, hb)
    ensures SetAnnotation(Two(a, b, sa, sb, cm, ha, hb).nodes, a, 0, id)
         == Two(a, b, StatusText(PREPARE, id), sb, cm, ha, hb).nodes
  {
    assert map[a := ha, b := hb][a := h] == map[a := h, b := hb];
  }

  lemma WithSecond(a: string, b: string, sa: string, sb: string, cm: Option<CoordStore.ConfigMap>,
                   ha: Host, hb: Host, h: Host, id: string)
    requires a != b
    ensures With(Two(a, b, sa, sb, cm, ha, hb), b, h) == Two(a, b, sa, sb, cm, ha, h)
    ensures SetAnnotation(Two(a, b, sa, sb, cm, ha, hb).nodes, b, 0, id)
         == Two(a, b, sa, StatusText(PREPARE, id), cm, ha, hb).nodes
  {
    assert map[a := ha, b := hb][b := h] == map[a := ha, b := h];
  }

  lemma FirstPrepares(a: string, b: string, id: string) returns (clusters: seq<Cluster>, steps: seq<Step>)
    requires IsWord(a) && IsWord(b) && a != b
    ensures IsRun(clusters, steps, id)
    ensures clusters[|steps|] == Two(a, b, StatusText(PREPARE, id), "", Some(CoordStore.FreshData(1, id, [])),
                                     MasterAt(0, Waiting(0)), MasterAt(-1, Idle))
  {
    var cm, start := Some(CoordStore.FreshData(1, id, [])), MasterAt(-1, Idle);
    var refresh, waiting := MasterAt(-1, Refresh), MasterAt(0, Waiting(0));
    TwoMastersStart(a, b, id);
    clusters, steps := Claims([TwoMasters(a, b)], [], id, a);
    WithFirst(a, b, "", "", None, start, start, refresh, id);
    assert clusters[|steps|] == Two(a, b, "", "", cm, refresh, start);
    clusters, steps := Prepares(clusters, steps, id, a);
    WithFirst(a, b, "", "", cm, refresh, start, waiting, id);
  }

  /** Both masters prepare. */
  lemma BothPrepare(a: string, b: string, id: string) returns (clusters: seq<Cluster>, steps: seq<Step>)
    requires IsWord(a) && IsWord(b) && a != b
    ensures IsRun(clusters, steps, id)
    ensures clusters[|steps|] == Two(a, b, StatusText(PREPARE, id), StatusText(PREPARE, id),
                                     Some(CoordStore.FreshData(1, id, [])),
                                     MasterAt(0, Waiting(0)), MasterAt(0, Waiting(0)))
  {
    var cm, start := Some(CoordStore.FreshData(1, id, [])), MasterAt(-1, Idle);
    var refresh, waiting := MasterAt(-1, Refresh), MasterAt(0, Waiting(0));
    var status := StatusText(PREPARE, id);
    clusters, steps := FirstPrepares(a, b, id);
    clusters, steps := Follows(clusters, steps, id, b);
    WithSecond(a, b, status, "", cm, waiting, start, refresh, id);
    assert clusters[|steps|] == Two(a, b, status, "", cm, waiting, refresh);
    clusters, steps := Prepares(clusters, steps, id, b);
    WithSecond(a, b, status, "", cm, waiting, refresh, waiting, id);
  }

  /** Both nodes show prepare. */
  lemma BothReached(a: string, b: string, cm: Option<CoordStore.ConfigMap>, h: Host, id: string)
    requires AT !in id
    ensures var nodes := Two(a, b, StatusText(PREPARE, id), StatusText(PREPARE, id), cm, h, h).nodes;
            forall m :: m in nodes ==> Index(ReachedPhase(nodes[m].annotation, id)) >= 0
  {
    StatusRoundTripIff(PREPARE, id);
    assert Index(PREPARE) == 0;
  }

  /** One of them opens the first barrier. */
  lemma BarrierOpened(a: string, b: string, id: string) returns (clusters: seq<Cluster>, steps: seq<Step>)
    requires IsWord(a) && IsWord(b) && a != b && AT !in id
    ensures IsRun(clusters, steps, id) && CoordStore.ReadProgress(clusters[|steps|].cm, id) == CUTOVER
    ensures clusters[|steps|].nodes.Keys == {a, b} && Live(clusters[|steps|], a) && Live(clusters[|steps|], b)
    ensures clusters[|steps|].hosts == map[a := MasterAt(0, Waiting(0)), b := MasterAt(0, Waiting(0))]
  {
    clusters, steps := BothPrepare(a, b, id);
    RunKeepsInv(clusters, steps, id, |steps|);
    var c := clusters[|steps|];
    BothReached(a, b, c.cm, MasterAt(0, Waiting(0)), id);
    assert Index(PREPARE) == 0 && ORDERED[1] == CUTOVER;
    var further, after := BarrierOpens(c, id, a);
    clusters, steps := Join(clusters, steps, id, after, further);
  }

  /** And cuts over, while the other is still on prepare's files. */
  lemma OneCutsOver(a: string, b: string, id: string) returns (clusters: seq<Cluster>, steps: seq<Step>)
    requires IsWord(a) && IsWord(b) && a != b && AT !in id
    ensures IsRun(clusters, steps, id) && CoordStore.ReadProgress(clusters[|steps|].cm, id) == CUTOVER
    ensures clusters[|steps|].nodes.Keys == {a, b} && Live(clusters[|steps|], a) && Live(clusters[|steps|], b)
    ensures clusters[|steps|].hosts == map[a := Host(true, 0, 0, 1, 1, Loaded(1)), b := MasterAt(0, Waiting(0))]
  {
    clusters, steps := BarrierOpened(a, b, id);
    clusters, steps := CutsOver(clusters, steps, id, a);
  }
}
