/** The reconcile plan and the dependency graph its registered modules form. */
module PhaseGraph {

  type Id = string

  datatype Phase = Phase(id: Id, skipRun: bool)

  /** The phases in catalog order, and the declared dependencies of each registered module. */
  datatype Graph = Graph(plan: seq<Phase>, registry: map<Id, seq<Id>>)

  /** The catalog lists each phase once. */
  predicate UniqueIds(g: Graph) {
    forall i, j :: 0 <= i < j < |g.plan| ==> g.plan[i].id != g.plan[j].id
  }

  function TasksUpTo(g: Graph, n: nat): set<Id>
    requires n <= |g.plan|
  {
    set i | 0 <= i < n && g.plan[i].id in g.registry :: g.plan[i].id
  }

  /** Phases of the plan that have a registered module. */
  function Tasks(g: Graph): set<Id> {
    TasksUpTo(g, |g.plan|)
  }

  /** phaseIndex: filled front to back, so a later entry would win. */
  function IndexIn(plan: seq<Phase>, id: Id): (i: nat)
    requires exists k :: 0 <= k < |plan| && plan[k].id == id
    ensures i < |plan| && plan[i].id == id
  {
    if plan[|plan| - 1].id == id then |plan| - 1 else IndexIn(plan[..|plan| - 1], id)
  }

  function Position(g: Graph, id: Id): nat
    requires id in Tasks(g)
  {
    IndexIn(g.plan, id)
  }

  /** `a` declares `b`, and `b` is part of the plan: other declared dependencies are ignored. */
  predicate DependsOn(g: Graph, a: Id, b: Id) {
    a in Tasks(g) && b in Tasks(g) && b in g.registry[a]
  }

  ghost predicate IsCycle(g: Graph, path: seq<Id>) {
    && |path| >= 2 && path[0] == path[|path| - 1]
    && forall i :: 0 <= i < |path| - 1 ==> DependsOn(g, path[i], path[i + 1])
  }

  ghost predicate Acyclic(g: Graph) {
    forall path :: !IsCycle(g, path)
  }

  // ---------------------------------------------------------------- finding a cycle

  predicate Distinct<T(==)>(s: seq<T>) {
    forall i, j :: 0 <= i < j < |s| ==> s[i] != s[j]
  }

  lemma {:induction false} DistinctSize<T>(s: seq<T>, u: set<T>)
    requires Distinct(s) && forall i :: 0 <= i < |s| ==> s[i] in u
    ensures |s| <= |u|
  {
    if |s| > 0 {
      var last := s[|s| - 1];
      DistinctSize(s[..|s| - 1], u - {last});
    }
  }

  ghost predicate IsWalk(g: Graph, stuck: set<Id>, walk: seq<Id>) {
    && |walk| >= 1
    && (forall i :: 0 <= i < |walk| ==> walk[i] in stuck)
    && forall i :: 0 <= i < |walk| - 1 ==> DependsOn(g, walk[i], walk[i + 1])
  }

  lemma ExtendWalk(g: Graph, stuck: set<Id>, walk: seq<Id>, d: Id)
    requires IsWalk(g, stuck, walk) && d in stuck && DependsOn(g, walk[|walk| - 1], d)
    ensures IsWalk(g, stuck, walk + [d])
  {
    var longer := walk + [d];
    forall i | 0 <= i < |longer| - 1 ensures DependsOn(g, longer[i], longer[i + 1]) {
      if i == |walk| - 1 {
        assert longer[i] == walk[|walk| - 1];
      } else {
        assert longer[i] == walk[i] && longer[i + 1] == walk[i + 1];
      }
    }
  }

  /** The member depends on another member. */
  ghost predicate IsStuck(g: Graph, stuck: set<Id>, t: Id) {
    exists d :: d in stuck && DependsOn(g, t, d)
  }

  ghost predicate AllStuck(g: Graph, stuck: set<Id>) {
    forall t {:trigger IsStuck(g, stuck, t)} :: t in stuck ==> IsStuck(g, stuck, t)
  }

  lemma LoopFromRepeat(g: Graph, stuck: set<Id>, walk: seq<Id>, k: nat)
    requires IsWalk(g, stuck, walk) && k < |walk| - 1 && walk[k] == walk[|walk| - 1]
    ensures IsCycle(g, walk[k..]) && forall i :: 0 <= i < |walk[k..]| ==> walk[k..][i] in stuck
  {
    var path := walk[k..];
    forall i | 0 <= i < |path| - 1 ensures DependsOn(g, path[i], path[i + 1]) {
      assert DependsOn(g, walk[k + i], walk[k + i + 1]);
    }
  }

  /** Walking on from member to member must come back to where the walk has been. */
  lemma {:induction false} WalkUntilRepeat(g: Graph, stuck: set<Id>, walk: seq<Id>) returns (path: seq<Id>)
    requires AllStuck(g, stuck) && IsWalk(g, stuck, walk) && Distinct(walk)
    ensures IsCycle(g, path) && forall i :: 0 <= i < |path| ==> path[i] in stuck
    decreases |stuck| - |walk|
  {
    var last := walk[|walk| - 1];
    assert last in stuck && IsStuck(g, stuck, last);
    var d :| d in stuck && DependsOn(g, last, d);
    var longer := walk + [d];
    ExtendWalk(g, stuck, walk, d);
    if k :| 0 <= k < |walk| && walk[k] == d {
      LoopFromRepeat(g, stuck, longer, k);
      path := longer[k..];
    } else {
      DistinctSize(longer, stuck);
      path := WalkUntilRepeat(g, stuck, longer);
    }
  }

  /** In a non-empty set whose every member depends on a member, some members form a cycle. */
  lemma StuckSetHasCycle(g: Graph, stuck: set<Id>) returns (path: seq<Id>)
    requires stuck != {} && AllStuck(g, stuck)
    ensures IsCycle(g, path) && forall i :: 0 <= i < |path| ==> path[i] in stuck
  {
    var start :| start in stuck;
    path := WalkUntilRepeat(g, stuck, [start]);
  }

  /** A numbering that every dependency lowers leaves no room for a cycle. */
  lemma {:induction false} RankDropsAlong(g: Graph, rank: map<Id, nat>, path: seq<Id>, n: nat)
    requires forall a, b | DependsOn(g, a, b) :: a in rank && b in rank && rank[b] < rank[a]
    requires n < |path| && |path| >= 2
    requires forall i :: 0 <= i < |path| - 1 ==> DependsOn(g, path[i], path[i + 1])
    ensures path[0] in rank && path[n] in rank && (n > 0 ==> rank[path[n]] < rank[path[0]])
  {
    assert DependsOn(g, path[0], path[1]);
    if n > 0 {
      RankDropsAlong(g, rank, path, n - 1);
      assert DependsOn(g, path[n - 1], path[n]);
    }
  }

  lemma RankedIsAcyclic(g: Graph, rank: map<Id, nat>)
    requires forall a, b | DependsOn(g, a, b) :: a in rank && b in rank && rank[b] < rank[a]
    ensures Acyclic(g)
  {
    forall path ensures !IsCycle(g, path) {
      if IsCycle(g, path) {
        RankDropsAlong(g, rank, path, |path| - 1);
      }
    }
  }
}
