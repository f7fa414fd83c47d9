/** runPhaseDAG: Kahn's algorithm with a bounded number of phases running at once. */
module PhaseScheduler {
  import opened Text
  import opened PhaseGraph
  import opened PhaseTrace

  // ---------------------------------------------------------------- Go maps with zero values

  function CountOf(m: map<Id, int>, id: Id): int {
    if id in m then m[id] else 0
  }

  function ListOf(m: map<Id, seq<Id>>, id: Id): seq<Id> {
    if id in m then m[id] else []
  }

  // ---------------------------------------------------------------- counting dependencies

  /** How many entries of a dependency list are in the set; a repeated entry counts again. */
  function Count(deps: seq<Id>, pending: set<Id>): nat {
    if |deps| == 0 then 0
    else Count(deps[..|deps| - 1], pending) + (if deps[|deps| - 1] in pending then 1 else 0)
  }

  lemma {:induction false} CountZeroIff(deps: seq<Id>, pending: set<Id>)
    ensures Count(deps, pending) == 0 <==> forall d | d in deps :: d !in pending
  {
    if |deps| > 0 {
      CountZeroIff(deps[..|deps| - 1], pending);
      assert deps == deps[..|deps| - 1] + [deps[|deps| - 1]];
    }
  }

  lemma {:induction false} CountWithout(deps: seq<Id>, pending: set<Id>, r: Id)
    requires r in pending
    ensures Count(deps, pending) == Count(deps, pending - {r}) + multiset(deps)[r]
  {
    if |deps| > 0 {
      CountWithout(deps[..|deps| - 1], pending, r);
      assert deps == deps[..|deps| - 1] + [deps[|deps| - 1]];
    }
  }

  /** The counter of every task processed so far. */
  ghost predicate Counted(registry: map<Id, seq<Id>>, done: set<Id>, pending: set<Id>, remaining: map<Id, int>)
    requires done <= registry.Keys
  {
    forall t :: CountOf(remaining, t) == if t in done then Count(registry[t], pending) else 0
  }

  /** Reverse edges, with multiplicity: how often `t` is listed under `d`. */
  ghost function Edges(dependents: map<Id, seq<Id>>, d: Id, t: Id): nat {
    multiset(ListOf(dependents, d))[t]
  }

  /** The reverse edges of every task processed so far. */
  ghost predicate Linked(registry: map<Id, seq<Id>>, tasks: set<Id>, done: set<Id>, dependents: map<Id, seq<Id>>)
    requires done <= registry.Keys
  {
    forall d, t :: Edges(dependents, d, t) == if t in done && d in tasks then multiset(registry[t])[d] else 0
  }

  // ---------------------------------------------------------------- the ready queue

  predicate InOrder(phaseIndex: map<Id, nat>, ids: seq<Id>) {
    && (forall i :: 0 <= i < |ids| ==> ids[i] in phaseIndex)
    && forall i, j :: 0 <= i < j < |ids| ==> phaseIndex[ids[i]] <= phaseIndex[ids[j]]
  }

  function InsertByIndex(phaseIndex: map<Id, nat>, id: Id, ids: seq<Id>): seq<Id>
    requires id in phaseIndex && forall i :: 0 <= i < |ids| ==> ids[i] in phaseIndex
  {
    if |ids| == 0 || phaseIndex[id] <= phaseIndex[ids[0]] then [id] + ids
    else [ids[0]] + InsertByIndex(phaseIndex, id, ids[1..])
  }

  lemma {:induction false} InsertKeepsAll(phaseIndex: map<Id, nat>, id: Id, ids: seq<Id>)
    requires id in phaseIndex && forall i :: 0 <= i < |ids| ==> ids[i] in phaseIndex
    ensures multiset(InsertByIndex(phaseIndex, id, ids)) == multiset{id} + multiset(ids)
    ensures forall t :: t in InsertByIndex(phaseIndex, id, ids) <==> t == id || t in ids
  {
    if |ids| > 0 {
      InsertKeepsAll(phaseIndex, id, ids[1..]);
      assert ids == [ids[0]] + ids[1..];
    }
  }

  lemma {:induction false} InsertKeepsOrder(phaseIndex: map<Id, nat>, id: Id, ids: seq<Id>)
    requires id in phaseIndex && InOrder(phaseIndex, ids)
    ensures InOrder(phaseIndex, InsertByIndex(phaseIndex, id, ids))
  {
    if |ids| > 0 && phaseIndex[id] > phaseIndex[ids[0]] {
      InsertKeepsOrder(phaseIndex, id, ids[1..]);
      InsertKeepsAll(phaseIndex, id, ids[1..]);
      var rest := InsertByIndex(phaseIndex, id, ids[1..]);
      forall j | 0 <= j < |rest| ensures rest[j] in phaseIndex && phaseIndex[ids[0]] <= phaseIndex[rest[j]] {
        assert rest[j] in rest;
      }
    }
  }

  /** sortPhaseIDs: by catalog position, equal positions keeping their order. */
  function SortByIndex(phaseIndex: map<Id, nat>, ids: seq<Id>): (r: seq<Id>)
    requires forall i :: 0 <= i < |ids| ==> ids[i] in phaseIndex
    ensures InOrder(phaseIndex, r) && multiset(r) == multiset(ids)
  {
    if |ids| == 0 then []
    else
      assert ids == [ids[0]] + ids[1..];
      var rest := SortByIndex(phaseIndex, ids[1..]);
      InsertKeepsOrder(phaseIndex, ids[0], rest);
      InsertKeepsAll(phaseIndex, ids[0], rest);
      InsertByIndex(phaseIndex, ids[0], rest)
  }

  ghost predicate NoDuplicates(ids: seq<Id>) {
    forall t :: multiset(ids)[t] <= 1
  }

  lemma SortKeepsMembers(phaseIndex: map<Id, nat>, ids: seq<Id>)
    requires forall i :: 0 <= i < |ids| ==> ids[i] in phaseIndex
    ensures forall t :: t in SortByIndex(phaseIndex, ids) <==> t in ids
    ensures NoDuplicates(ids) ==> NoDuplicates(SortByIndex(phaseIndex, ids))
  {
    forall t ensures t in SortByIndex(phaseIndex, ids) <==> t in ids {
      assert t in multiset(SortByIndex(phaseIndex, ids)) <==> t in multiset(ids);
    }
  }

  // ---------------------------------------------------------------- the parts of the loop

  ghost predicate LinkedUpTo(tasks: set<Id>, base: map<Id, seq<Id>>, cur: map<Id, seq<Id>>, id: Id, deps: seq<Id>) {
    forall d, t :: Edges(cur, d, t)
      == Edges(base, d, t) + (if t == id && d in tasks then multiset(deps)[d] else 0)
  }

  lemma LinkOne(tasks: set<Id>, base: map<Id, seq<Id>>, cur: map<Id, seq<Id>>, id: Id, deps: seq<Id>, dep: Id)
    requires LinkedUpTo(tasks, base, cur, id, deps)
    ensures dep in tasks ==> LinkedUpTo(tasks, base, cur[dep := ListOf(cur, dep) + [id]], id, deps + [dep])
    ensures dep !in tasks ==> LinkedUpTo(tasks, base, cur, id, deps + [dep])
  {
    var cur' := if dep in tasks then cur[dep := ListOf(cur, dep) + [id]] else cur;
    forall d, t
      ensures Edges(cur', d, t) == Edges(base, d, t) + (if t == id && d in tasks then multiset(deps + [dep])[d] else 0)
    {
      assert Edges(cur, d, t) == Edges(base, d, t) + (if t == id && d in tasks then multiset(deps)[d] else 0);
    }
  }

  lemma LinkDone(registry: map<Id, seq<Id>>, tasks: set<Id>, done: set<Id>, id: Id,
                 base: map<Id, seq<Id>>, cur: map<Id, seq<Id>>)
    requires done <= registry.Keys && id in registry && id !in done
    requires Linked(registry, tasks, done, base) && LinkedUpTo(tasks, base, cur, id, registry[id])
    ensures Linked(registry, tasks, done + {id}, cur)
  {
    forall d, t
      ensures Edges(cur, d, t) == if t in done + {id} && d in tasks then multiset(registry[t])[d] else 0
    {
      assert Edges(base, d, t) == if t in done && d in tasks then multiset(registry[t])[d] else 0;
      assert Edges(cur, d, t) == Edges(base, d, t) + (if t == id && d in tasks then multiset(registry[id])[d] else 0);
    }
  }

  /** The inner loop of the setup: one task's dependencies become a count and reverse edges. */
  method LinkDependencies(registry: map<Id, seq<Id>>, tasks: set<Id>, id: Id,
                          remaining: map<Id, int>, dependents: map<Id, seq<Id>>, ghost done: set<Id>)
    returns (remaining': map<Id, int>, dependents': map<Id, seq<Id>>)
    requires done <= registry.Keys && id in registry && id !in done
    requires Counted(registry, done, tasks, remaining) && Linked(registry, tasks, done, dependents)
    ensures Counted(registry, done + {id}, tasks, remaining')
    ensures Linked(registry, tasks, done + {id}, dependents')
  {
    var deps := registry[id];
    remaining', dependents' := remaining, dependents;
    for j := 0 to |deps|
      invariant CountOf(remaining', id) == Count(deps[..j], tasks)
      invariant forall t :: t != id ==> CountOf(remaining', t) == CountOf(remaining, t)
      invariant LinkedUpTo(tasks, dependents, dependents', id, deps[..j])
    {
      assert deps[..j + 1][..j] == deps[..j] && deps[..j + 1] == deps[..j] + [deps[j]];
      LinkOne(tasks, dependents, dependents', id, deps[..j], deps[j]);
      if deps[j] in tasks {
        remaining' := remaining'[id := CountOf(remaining', id) + 1];
        dependents' := dependents'[deps[j] := ListOf(dependents', deps[j]) + [id]];
      }
    }
    assert deps[..|deps|] == deps;
    LinkDone(registry, tasks, done, id, dependents, dependents');
  }

  /** Every task that waits for `r` is listed under it as often as it declares it. */
  lemma WaitersOf(registry: map<Id, seq<Id>>, tasks: set<Id>, dependents: map<Id, seq<Id>>, r: Id, t: Id)
    requires tasks <= registry.Keys && Linked(registry, tasks, tasks, dependents) && r in tasks
    ensures multiset(ListOf(dependents, r))[t] == if t in tasks then multiset(registry[t])[r] else 0
    ensures t in ListOf(dependents, r) <==> t in tasks && r in registry[t]
  {
    assert Edges(dependents, r, t) == if t in tasks && r in tasks then multiset(registry[t])[r] else 0;
    assert t in ListOf(dependents, r) <==> t in multiset(ListOf(dependents, r));
  }

  ghost predicate Decremented(base: map<Id, int>, cur: map<Id, int>, waiters: seq<Id>) {
    forall t :: CountOf(cur, t) == CountOf(base, t) - multiset(waiters)[t]
  }

  lemma DecrementOne(base: map<Id, int>, cur: map<Id, int>, waiters: seq<Id>, t: Id)
    requires Decremented(base, cur, waiters)
    ensures Decremented(base, cur[t := CountOf(cur, t) - 1], waiters + [t])
  {
  }

  /** Joining the queue when the last dependency goes. */
  ghost predicate Queued(ready: seq<Id>, cur: seq<Id>, remaining: map<Id, int>, waiters: seq<Id>) {
    && NoDuplicates(cur)
    && forall t :: t in cur <==> t in ready || (t in waiters && CountOf(remaining, t) == 0)
  }

  lemma QueueOne(ready: seq<Id>, cur: seq<Id>, remaining: map<Id, int>, waiters: seq<Id>, t: Id)
    requires Queued(ready, cur, remaining, waiters)
    requires CountOf(remaining, t) > 0 && t !in ready
    ensures var remaining' := remaining[t := CountOf(remaining, t) - 1];
            Queued(ready, if CountOf(remaining', t) == 0 then cur + [t] else cur, remaining', waiters + [t])
  {
    assert t !in cur;
    assert multiset(cur)[t] == 0;
  }

  lemma PartOfWaiters(waiting: seq<Id>, i: nat)
    requires i < |waiting|
    ensures multiset(waiting[..i])[waiting[i]] < multiset(waiting)[waiting[i]]
  {
    assert waiting == waiting[..i] + [waiting[i]] + waiting[i + 1..];
  }

  /** Before the release, a counter is at least the number of times its task waits for `r`. */
  lemma CounterSplit(registry: map<Id, seq<Id>>, tasks: set<Id>, r: Id, pending: set<Id>,
                     remaining: map<Id, int>, dependents: map<Id, seq<Id>>, t: Id)
    requires r in pending && pending <= tasks <= registry.Keys
    requires Counted(registry, tasks, pending, remaining) && Linked(registry, tasks, tasks, dependents)
    ensures CountOf(remaining, t) - multiset(ListOf(dependents, r))[t]
         == if t in tasks then Count(registry[t], pending - {r}) else 0
  {
    WaitersOf(registry, tasks, dependents, r, t);
    if t in tasks {
      CountWithout(registry[t], pending, r);
    }
  }

  /** The release loop: `r` no longer holds back its dependents. */
  method ReleaseDependents(ghost registry: map<Id, seq<Id>>, ghost tasks: set<Id>, r: Id, ghost pending: set<Id>,
                           remaining: map<Id, int>, dependents: map<Id, seq<Id>>, ready: seq<Id>)
    returns (remaining': map<Id, int>, ready': seq<Id>)
    requires r in pending && pending <= tasks <= registry.Keys
    requires Counted(registry, tasks, pending, remaining) && Linked(registry, tasks, tasks, dependents)
    requires NoDuplicates(ready) && forall t | t in ready :: t in tasks && r !in registry[t]
    ensures Counted(registry, tasks, pending - {r}, remaining')
    ensures NoDuplicates(ready')
    ensures forall t :: t in ready' <==>
      t in ready || (t in tasks && r in registry[t] && Count(registry[t], pending - {r}) == 0)
  {
    var waiting := ListOf(dependents, r);
    remaining', ready' := remaining, ready;
    for i := 0 to |waiting|
      invariant Decremented(remaining, remaining', waiting[..i])
      invariant Queued(ready, ready', remaining', waiting[..i])
    {
      var t := waiting[i];
      assert waiting[..i + 1] == waiting[..i] + [t];
      PartOfWaiters(waiting, i);
      CounterSplit(registry, tasks, r, pending, remaining, dependents, t);
      WaitersOf(registry, tasks, dependents, r, t);
      DecrementOne(remaining, remaining', waiting[..i], t);
      QueueOne(ready, ready', remaining', waiting[..i], t);
      remaining' := remaining'[t := CountOf(remaining', t) - 1];
      if CountOf(remaining', t) == 0 {
        ready' := ready' + [t];
      }
    }
    assert waiting[..|waiting|] == waiting;
    AllReleased(registry, tasks, r, pending, remaining, dependents, remaining');
  }

  /** Once every waiter was decremented, the counters count what is pending without `r`. */
  lemma AllReleased(registry: map<Id, seq<Id>>, tasks: set<Id>, r: Id, pending: set<Id>,
                    remaining: map<Id, int>, dependents: map<Id, seq<Id>>, remaining': map<Id, int>)
    requires r in pending && pending <= tasks <= registry.Keys
    requires Counted(registry, tasks, pending, remaining) && Linked(registry, tasks, tasks, dependents)
    requires Decremented(remaining, remaining', ListOf(dependents, r))
    ensures Counted(registry, tasks, pending - {r}, remaining')
    ensures forall t :: t in ListOf(dependents, r) <==> t in tasks && r in registry[t]
    ensures forall t :: t in tasks ==> CountOf(remaining', t) == Count(registry[t], pending - {r})
  {
    forall t
      ensures CountOf(remaining', t) == if t in tasks then Count(registry[t], pending - {r}) else 0
      ensures t in ListOf(dependents, r) <==> t in tasks && r in registry[t]
    {
      CounterSplit(registry, tasks, r, pending, remaining, dependents, t);
      WaitersOf(registry, tasks, dependents, r, t);
    }
  }

  // ---------------------------------------------------------------- the queue along a trace

  ghost predicate IndexExact(g: Graph, phaseIndex: map<Id, nat>) {
    forall t | t in Tasks(g) :: t in phaseIndex && phaseIndex[t] == Position(g, t)
  }

  /** The queue holds exactly the ready phases, each once, in catalog order. */
  ghost predicate QueueExact(g: Graph, partial: bool, phaseIndex: map<Id, nat>, tr: seq<Event>, ready: seq<Id>) {
    && NoDuplicates(ready) && InOrder(phaseIndex, ready)
    && forall t :: t in ready <==> IsReady(g, partial, tr, t)
  }

  lemma ExtendedTrace(partial: bool, tr: seq<Event>, e: Event)
    ensures StartedIds(tr + [e]) == StartedIds(tr) + (if e.Started? then {e.id} else {})
    ensures ReceivedIds(tr + [e]) == ReceivedIds(tr) + (if e.Received? then {e.id} else {})
    ensures ReleasedIds(tr + [e], partial) == ReleasedIds(tr, partial) + (if Releases(e, partial) then {e.id} else {})
    ensures Halted(tr + [e], partial) <==> Halted(tr, partial) || Halts(e, partial)
    ensures FirstHandlerErr(tr + [e])
         == if FirstHandlerErr(tr).Some? then FirstHandlerErr(tr) else if e.Received? then e.handlerErr else None
    ensures FirstRunErr(tr + [e])
         == if FirstRunErr(tr).Some? then FirstRunErr(tr) else if e.Received? then e.runErr else None
  {
    assert (tr + [e])[..|tr|] == tr;
  }

  lemma ExtendedValid(g: Graph, slots: int, partial: bool, tr: seq<Event>, e: Event)
    requires UniqueIds(g) && ValidTrace(g, slots, partial, tr) && MayFollow(g, slots, partial, tr, e)
    ensures ValidTrace(g, slots, partial, tr + [e])
  {
    assert (tr + [e])[..|tr|] == tr;
  }

  lemma QueueTail(phaseIndex: map<Id, nat>, ready: seq<Id>)
    requires ready != [] && NoDuplicates(ready) && InOrder(phaseIndex, ready)
    ensures NoDuplicates(ready[1..]) && InOrder(phaseIndex, ready[1..])
    ensures forall t :: t in ready[1..] <==> t in ready && t != ready[0]
    ensures forall t | t in ready :: t in phaseIndex && phaseIndex[ready[0]] <= phaseIndex[t]
  {
    assert ready == [ready[0]] + ready[1..];
    assert multiset(ready) == multiset{ready[0]} + multiset(ready[1..]);
    forall t ensures multiset(ready[1..])[t] <= 1 && (t in ready[1..] <==> t in ready && t != ready[0]) {
      assert multiset(ready)[t] <= 1;
      assert t in ready[1..] <==> t in multiset(ready[1..]);
      assert t in ready <==> t in multiset(ready);
    }
  }

  /** Starting the head of the queue. */
  lemma StartHead(g: Graph, slots: int, partial: bool, phaseIndex: map<Id, nat>, tr: seq<Event>, ready: seq<Id>)
    requires UniqueIds(g) && IndexExact(g, phaseIndex) && ready != []
    requires QueueExact(g, partial, phaseIndex, tr, ready)
    requires !Halted(tr, partial) && |Running(tr)| < slots
    ensures MayFollow(g, slots, partial, tr, Started(ready[0]))
    ensures QueueExact(g, partial, phaseIndex, tr + [Started(ready[0])], ready[1..])
  {
    var e := Started(ready[0]);
    QueueTail(phaseIndex, ready);
    ExtendedTrace(partial, tr, e);
    assert ready[0] in ready;
    forall t | IsReady(g, partial, tr, t) ensures Position(g, ready[0]) <= Position(g, t) {
      assert t in ready;
    }
    forall t ensures t in ready[1..] <==> IsReady(g, partial, tr + [e], t) {
      assert t in ready <==> IsReady(g, partial, tr, t);
    }
  }

  lemma {:induction false} StartedHaveDepsReleased(g: Graph, slots: int, partial: bool, tr: seq<Event>, t: Id)
    requires UniqueIds(g) && ValidTrace(g, slots, partial, tr) && t in StartedIds(tr)
    ensures t in Tasks(g) && DepsReleased(g, partial, tr, t)
  {
    var rest := tr[..|tr| - 1];
    if t in StartedIds(rest) {
      StartedHaveDepsReleased(g, slots, partial, rest, t);
    } else {
      assert MayFollow(g, slots, partial, rest, tr[|tr| - 1]);
    }
  }

  /** Receiving a phase that lets its dependents go makes ready exactly those it was the last to hold. */
  lemma ReleaseMakesReady(g: Graph, slots: int, partial: bool, tr: seq<Event>, e: Event, t: Id)
    requires UniqueIds(g) && ValidTrace(g, slots, partial, tr)
    requires Releases(e, partial) && e.id in Running(tr) && e.id in Tasks(g) && e.id !in ReleasedIds(tr, partial)
    ensures IsReady(g, partial, tr + [e], t) <==>
      IsReady(g, partial, tr, t)
      || (t in Tasks(g) && e.id in g.registry[t]
          && Count(g.registry[t], Tasks(g) - ReleasedIds(tr, partial) - {e.id}) == 0)
  {
    ExtendedTrace(partial, tr, e);
    if t in Tasks(g) {
      var pending := Tasks(g) - ReleasedIds(tr, partial) - {e.id};
      CountZeroIff(g.registry[t], pending);
      if t in StartedIds(tr) {
        StartedHaveDepsReleased(g, slots, partial, tr, t);
      }
      assert DepsReleased(g, partial, tr + [e], t) <==> Count(g.registry[t], pending) == 0;
      if e.id !in g.registry[t] {
        assert DepsReleased(g, partial, tr + [e], t) <==> DepsReleased(g, partial, tr, t);
      }
    }
  }

  // ---------------------------------------------------------------- the scheduler

  /** Positions in the plan, and the phases that have a module. */
  method IndexPlan(g: Graph) returns (phaseIndex: map<Id, nat>, tasks: set<Id>)
    requires UniqueIds(g)
    ensures tasks == Tasks(g) && IndexExact(g, phaseIndex)
  {
    phaseIndex, tasks := map[], {};
    for i := 0 to |g.plan|
      invariant tasks == TasksUpTo(g, i)
      invariant forall k :: 0 <= k < i ==> g.plan[k].id in phaseIndex && phaseIndex[g.plan[k].id] == k
    {
      phaseIndex := phaseIndex[g.plan[i].id := i];
      if g.plan[i].id in g.registry {
        tasks := tasks + {g.plan[i].id};
      }
    }
  }

  /** Counters, reverse edges, and the phases that wait for nothing, in no particular order. */
  method LinkPlan(g: Graph, tasks: set<Id>)
    returns (remaining: map<Id, int>, dependents: map<Id, seq<Id>>, ready: seq<Id>)
    requires UniqueIds(g) && tasks == Tasks(g)
    ensures Counted(g.registry, tasks, tasks, remaining) && Linked(g.registry, tasks, tasks, dependents)
    ensures NoDuplicates(ready)
    ensures forall t :: t in ready <==> t in tasks && CountOf(remaining, t) == 0
  {
    remaining, dependents, ready := map[], map[], [];
    for i := 0 to |g.plan|
      invariant Counted(g.registry, TasksUpTo(g, i), tasks, remaining)
      invariant Linked(g.registry, tasks, TasksUpTo(g, i), dependents)
      invariant NoDuplicates(ready)
      invariant forall t :: t in ready <==> t in TasksUpTo(g, i) && CountOf(remaining, t) == 0
    {
      var id := g.plan[i].id;
      if id !in tasks {
        assert TasksUpTo(g, i + 1) == TasksUpTo(g, i);
        continue;
      }
      ghost var before := remaining;
      assert id !in TasksUpTo(g, i) && TasksUpTo(g, i + 1) == TasksUpTo(g, i) + {id};
      remaining, dependents := LinkDependencies(g.registry, tasks, id, remaining, dependents, TasksUpTo(g, i));
      assert forall t | t in TasksUpTo(g, i) :: CountOf(remaining, t) == CountOf(before, t);
      assert multiset(ready)[id] == 0;
      if CountOf(remaining, id) == 0 {
        ready := ready + [id];
      }
    }
  }

  /** The setup of runPhaseDAG: positions, tasks, counters, reverse edges and the initial queue. */
  method Prepare(g: Graph, partial: bool)
    returns (phaseIndex: map<Id, nat>, tasks: set<Id>, remaining: map<Id, int>,
             dependents: map<Id, seq<Id>>, ready: seq<Id>)
    requires UniqueIds(g)
    ensures tasks == Tasks(g) && IndexExact(g, phaseIndex)
    ensures Counted(g.registry, tasks, tasks, remaining) && Linked(g.registry, tasks, tasks, dependents)
    ensures QueueExact(g, partial, phaseIndex, [], ready)
  {
    phaseIndex, tasks := IndexPlan(g);
    remaining, dependents, ready := LinkPlan(g, tasks);
    forall t ensures t in ready <==> IsReady(g, partial, [], t) {
      if t in tasks {
        CountZeroIff(g.registry[t], tasks);
      }
    }
    forall i | 0 <= i < |ready| ensures ready[i] in phaseIndex {
      assert ready[i] in ready;
    }
    SortKeepsMembers(phaseIndex, ready);
    ready := SortByIndex(phaseIndex, ready);
  }

  /** What handling one completion has to achieve for the counters and the queue. */
  ghost predicate LoopExact(g: Graph, partial: bool, phaseIndex: map<Id, nat>, tr: seq<Event>,
                            remaining: map<Id, int>, ready: seq<Id>)
  {
    && Counted(g.registry, Tasks(g), Tasks(g) - ReleasedIds(tr, partial), remaining)
    && QueueExact(g, partial, phaseIndex, tr, ready)
  }

  lemma RunningIsUnreleased(g: Graph, slots: int, partial: bool, tr: seq<Event>, id: Id)
    requires UniqueIds(g) && ValidTrace(g, slots, partial, tr) && id in Running(tr)
    ensures id in Tasks(g) && id !in ReleasedIds(tr, partial)
    ensures forall t | IsReady(g, partial, tr, t) :: id !in g.registry[t]
  {
    ReceivedWereStarted(g, slots, partial, tr);
  }

  lemma SortedQueueExact(g: Graph, slots: int, partial: bool, phaseIndex: map<Id, nat>, tr: seq<Event>, e: Event,
                         queue: seq<Id>)
    requires UniqueIds(g) && IndexExact(g, phaseIndex) && ValidTrace(g, slots, partial, tr)
    requires Releases(e, partial) && e.id in Running(tr) && NoDuplicates(queue)
    requires forall t :: t in queue <==>
      IsReady(g, partial, tr, t)
      || (t in Tasks(g) && e.id in g.registry[t]
          && Count(g.registry[t], Tasks(g) - ReleasedIds(tr, partial) - {e.id}) == 0)
    ensures forall i :: 0 <= i < |queue| ==> queue[i] in phaseIndex
    ensures QueueExact(g, partial, phaseIndex, tr + [e], SortByIndex(phaseIndex, queue))
  {
    RunningIsUnreleased(g, slots, partial, tr, e.id);
    forall t ensures t in queue <==> IsReady(g, partial, tr + [e], t) {
      ReleaseMakesReady(g, slots, partial, tr, e, t);
    }
    forall i | 0 <= i < |queue| ensures queue[i] in phaseIndex {
      assert queue[i] in queue;
    }
    SortKeepsMembers(phaseIndex, queue);
  }

  lemma KeptQueueExact(g: Graph, partial: bool, phaseIndex: map<Id, nat>, tr: seq<Event>, e: Event,
                       remaining: map<Id, int>, ready: seq<Id>)
    requires LoopExact(g, partial, phaseIndex, tr, remaining, ready)
    requires e.Received? && !Releases(e, partial)
    ensures LoopExact(g, partial, phaseIndex, tr + [e], remaining, ready)
  {
    ExtendedTrace(partial, tr, e);
    assert ReleasedIds(tr + [e], partial) == ReleasedIds(tr, partial);
    forall t ensures t in ready <==> IsReady(g, partial, tr + [e], t) {
      assert t in ready <==> IsReady(g, partial, tr, t);
    }
  }

  /** One completion that was handled: it lets its dependents go, or nothing changes. */
  method Handle(g: Graph, ghost slots: int, partial: bool, phaseIndex: map<Id, nat>, ghost tr: seq<Event>, e: Event,
                remaining: map<Id, int>, dependents: map<Id, seq<Id>>, ready: seq<Id>)
    returns (remaining': map<Id, int>, ready': seq<Id>)
    requires UniqueIds(g) && IndexExact(g, phaseIndex)
    requires ValidTrace(g, slots, partial, tr) && e.Received? && e.id in Running(tr)
    requires Linked(g.registry, Tasks(g), Tasks(g), dependents)
    requires LoopExact(g, partial, phaseIndex, tr, remaining, ready)
    ensures LoopExact(g, partial, phaseIndex, tr + [e], remaining', ready')
  {
    if !Releases(e, partial) {
      KeptQueueExact(g, partial, phaseIndex, tr, e, remaining, ready);
      return remaining, ready;
    }
    RunningIsUnreleased(g, slots, partial, tr, e.id);
    ghost var pending := Tasks(g) - ReleasedIds(tr, partial);
    remaining', ready' := ReleaseDependents(g.registry, Tasks(g), e.id, pending, remaining, dependents, ready);
    SortedQueueExact(g, slots, partial, phaseIndex, tr, e, ready');
    ready' := SortByIndex(phaseIndex, ready');
    ExtendedTrace(partial, tr, e);
    assert Tasks(g) - ReleasedIds(tr + [e], partial) == pending - {e.id};
  }

  lemma StartEffect(g: Graph, slots: int, partial: bool, tr: seq<Event>, e: Event)
    requires UniqueIds(g) && ValidTrace(g, slots, partial, tr) && e.Started? && MayFollow(g, slots, partial, tr, e)
    ensures ValidTrace(g, slots, partial, tr + [e])
    ensures e.id !in Running(tr) && Running(tr + [e]) == Running(tr) + {e.id}
    ensures ReceivedIds(tr + [e]) == ReceivedIds(tr) && ReleasedIds(tr + [e], partial) == ReleasedIds(tr, partial)
    ensures !Halted(tr + [e], partial)
    ensures FirstHandlerErr(tr + [e]) == FirstHandlerErr(tr) && FirstRunErr(tr + [e]) == FirstRunErr(tr)
  {
    ExtendedValid(g, slots, partial, tr, e);
    ExtendedTrace(partial, tr, e);
    StartIsFresh(g, slots, partial, tr, e);
  }

  lemma ReceiveEffect(g: Graph, slots: int, partial: bool, tr: seq<Event>, e: Event)
    requires UniqueIds(g) && ValidTrace(g, slots, partial, tr) && e.Received? && MayFollow(g, slots, partial, tr, e)
    ensures ValidTrace(g, slots, partial, tr + [e])
    ensures Running(tr + [e]) == Running(tr) - {e.id}
    ensures ReceivedIds(tr + [e]) == ReceivedIds(tr) + {e.id}
    ensures e.id in Tasks(g) && e.id !in ReceivedIds(tr)
    ensures Halted(tr + [e], partial) == (Halted(tr, partial) || Halts(e, partial))
    ensures FirstHandlerErr(tr + [e]) == if FirstHandlerErr(tr).Some? then FirstHandlerErr(tr) else e.handlerErr
    ensures FirstRunErr(tr + [e]) == if FirstRunErr(tr).Some? then FirstRunErr(tr) else e.runErr
  {
    ExtendedValid(g, slots, partial, tr, e);
    ExtendedTrace(partial, tr, e);
    RunningIsUnreleased(g, slots, partial, tr, e.id);
  }

  /** The local variables of the loop. `active` is the set of running goroutines. */
  datatype Loop = Loop(
    remaining: map<Id, int>, ready: seq<Id>, results: map<Id, Event>, active: set<Id>, running: int,
    stop: bool, runFailure: Option<Err>, hardErr: Option<Err>)

  ghost predicate ResultsExact(tr: seq<Event>, results: map<Id, Event>) {
    && results.Keys == ReceivedIds(tr)
    && forall id | id in results :: results[id] in tr && results[id].Received? && results[id].id == id
  }

  lemma ResultsGrow(tr: seq<Event>, e: Event, results: map<Id, Event>)
    requires ResultsExact(tr, results)
    ensures e.Started? ==> ResultsExact(tr + [e], results)
    ensures e.Received? ==> ResultsExact(tr + [e], results[e.id := e])
  {
    ExtendedTrace(true, tr, e);
    assert e in tr + [e];
  }

  /** The variables tell the truth about the trace so far. */
  ghost predicate Consistent(g: Graph, slots: int, partial: bool, phaseIndex: map<Id, nat>, tr: seq<Event>, l: Loop)
    requires UniqueIds(g)
  {
    && ValidTrace(g, slots, partial, tr)
    && l.active == Running(tr) && l.running == |l.active|
    && l.stop == Halted(tr, partial)
    && LoopExact(g, partial, phaseIndex, tr, l.remaining, l.ready)
    && l.hardErr == FirstHandlerErr(tr) && l.runFailure == FirstRunErr(tr)
    && ResultsExact(tr, l.results)
  }

  /** The inner loop: start phases while a slot is free. */
  method StartPhases(g: Graph, slots: int, partial: bool, ghost phaseIndex: map<Id, nat>, tr: seq<Event>, l: Loop)
    returns (tr': seq<Event>, l': Loop)
    requires UniqueIds(g) && IndexExact(g, phaseIndex) && Consistent(g, slots, partial, phaseIndex, tr, l)
    ensures Consistent(g, slots, partial, phaseIndex, tr', l')
    ensures l'.results == l.results
    ensures l'.stop || l'.running >= slots || l'.ready == []
  {
    tr', l' := tr, l;
    while !l'.stop && l'.running < slots && |l'.ready| > 0
      invariant Consistent(g, slots, partial, phaseIndex, tr', l') && l'.results == l.results
      decreases |l'.ready|
    {
      var id := l'.ready[0];
      StartHead(g, slots, partial, phaseIndex, tr', l'.ready);
      StartEffect(g, slots, partial, tr', Started(id));
      ResultsGrow(tr', Started(id), l'.results);
      l' := l'.(active := l'.active + {id}, running := l'.running + 1, ready := l'.ready[1..]);
      tr' := tr' + [Started(id)];
    }
  }

  /** The loop blocks on a completion only when it can start nothing more. */
  lemma MayReceive(g: Graph, slots: int, partial: bool, phaseIndex: map<Id, nat>, tr: seq<Event>, l: Loop, e: Event)
    requires UniqueIds(g) && IndexExact(g, phaseIndex) && Consistent(g, slots, partial, phaseIndex, tr, l)
    requires l.stop || l.running >= slots || l.ready == []
    requires e.Received? && e.id in l.active
    requires e.id in phaseIndex && phaseIndex[e.id] < |g.plan| && (g.plan[phaseIndex[e.id]].skipRun ==> e.runErr.None?)
    ensures MayFollow(g, slots, partial, tr, e)
  {
    if l.ready == [] {
      forall t ensures !IsReady(g, partial, tr, t) {
        assert t !in l.ready;
      }
    }
  }

  lemma FewerLeft(all: set<Id>, results: map<Id, Event>, e: Event)
    requires e.id in all && e.id !in results
    ensures |all - results[e.id := e].Keys| < |all - results.Keys|
  {
    assert all - results[e.id := e].Keys == (all - results.Keys) - {e.id};
  }

  lemma ReceivedConsistent(g: Graph, slots: int, partial: bool, phaseIndex: map<Id, nat>, tr: seq<Event>, l: Loop,
                           e: Event, l': Loop)
    requires UniqueIds(g) && Consistent(g, slots, partial, phaseIndex, tr, l)
    requires e.Received? && MayFollow(g, slots, partial, tr, e)
    requires LoopExact(g, partial, phaseIndex, tr + [e], l'.remaining, l'.ready)
    requires l'.results == l.results[e.id := e] && l'.active == l.active - {e.id} && l'.running == l.running - 1
    requires l'.stop == (l.stop || Halts(e, partial))
    requires l'.hardErr == if l.hardErr.Some? then l.hardErr else e.handlerErr
    requires l'.runFailure == if l.runFailure.Some? then l.runFailure else e.runErr
    ensures Consistent(g, slots, partial, phaseIndex, tr + [e], l')
  {
    ReceiveEffect(g, slots, partial, tr, e);
    ResultsGrow(tr, e, l.results);
    assert e.id in l.active;
  }

  /** Every completion leaves fewer phases to wait for. */
  lemma ReceivedFewer(g: Graph, slots: int, partial: bool, all: set<Id>, tr: seq<Event>,
                      results: map<Id, Event>, e: Event)
    requires UniqueIds(g) && ValidTrace(g, slots, partial, tr) && results.Keys == ReceivedIds(tr) && all == Tasks(g)
    requires e.Received? && MayFollow(g, slots, partial, tr, e)
    ensures |all - results[e.id := e].Keys| < |all - results.Keys|
  {
    RunningIsUnreleased(g, slots, partial, tr, e.id);
    FewerLeft(all, results, e);
  }

  /** Receiving and handling one phase that has ended. Which one, and with which errors, is left
      open, except that a phase that is only registered does not run and so does not fail. */
  method ReceiveOne(g: Graph, slots: int, partial: bool, phaseIndex: map<Id, nat>,
                    dependents: map<Id, seq<Id>>, tr: seq<Event>, l: Loop)
    returns (tr': seq<Event>, l': Loop)
    requires UniqueIds(g) && IndexExact(g, phaseIndex) && Consistent(g, slots, partial, phaseIndex, tr, l)
    requires Linked(g.registry, Tasks(g), Tasks(g), dependents)
    requires l.running > 0 && (l.stop || l.running >= slots || l.ready == [])
    ensures Consistent(g, slots, partial, phaseIndex, tr', l')
    ensures |Tasks(g) - l'.results.Keys| < |Tasks(g) - l.results.Keys|
  {
    var id :| id in l.active;
    RunningIsUnreleased(g, slots, partial, tr, id);
    var runErr: Option<Err>, handlerErr: Option<Err> := *, *;
    if g.plan[phaseIndex[id]].skipRun {
      runErr := None;
    }
    var e := Received(id, runErr, handlerErr);
    MayReceive(g, slots, partial, phaseIndex, tr, l, e);
    var hardErr, runFailure, stop := l.hardErr, l.runFailure, l.stop;
    if handlerErr.Some? {
      if hardErr.None? {
        hardErr := handlerErr;
      }
      stop := true;
    }
    if runErr.Some? {
      if runFailure.None? {
        runFailure := runErr;
      }
      if !partial {
        stop := true;
      }
    }
    var remaining, ready := Handle(g, slots, partial, phaseIndex, tr, e, l.remaining, dependents, l.ready);
    l' := Loop(remaining, ready, l.results[id := e], l.active - {id}, l.running - 1, stop, runFailure, hardErr);
    tr' := tr + [e];
    ReceivedConsistent(g, slots, partial, phaseIndex, tr, l, e, l');
    ReceivedFewer(g, slots, partial, Tasks(g), tr, l.results, e);
  }

  /** runPhaseDAG. `requested` below one means the automatic value. The loop ends because every round
      but the last adds a result. */
  method RunPhaseDAG(g: Graph, requested: int, automatic: int, partial: bool)
    returns (verdict: Verdict, results: map<Id, Event>, trace: seq<Event>)
    requires UniqueIds(g) && automatic >= 1
    ensures var slots := if requested < 1 then automatic else requested;
            ValidTrace(g, slots, partial, trace) && IsFinished(g, partial, trace)
    ensures verdict == VerdictOf(g, partial, trace)
    ensures results.Keys == ReceivedIds(trace)
    ensures forall id | id in results :: results[id] in trace && results[id].Received? && results[id].id == id
    ensures
      partial && Acyclic(g) && (forall i :: 0 <= i < |trace| && trace[i].Received? ==> trace[i].handlerErr.None?) ==>
      results.Keys == Tasks(g) && verdict == Completed
  {
    var slots := if requested < 1 then automatic else requested;
    var phaseIndex, tasks, remaining, dependents, ready := Prepare(g, partial);
    trace := [];
    var l := Loop(remaining, ready, map[], {}, 0, false, None, None);
    while true
      invariant Consistent(g, slots, partial, phaseIndex, trace, l)
      decreases |Tasks(g) - l.results.Keys|
    {
      trace, l := StartPhases(g, slots, partial, phaseIndex, trace, l);
      if l.running == 0 {
        break;
      }
      trace, l := ReceiveOne(g, slots, partial, phaseIndex, dependents, trace, l);
    }
    results := l.results;
    if l.hardErr.Some? {
      verdict := HandlerFailed(l.hardErr.value);
    } else if l.runFailure.Some? {
      verdict := if partial then Completed else PhaseFailed(l.runFailure.value);
    } else if |results| != |tasks| {
      verdict := Incomplete;
    } else {
      verdict := Completed;
    }
    assert |results| == |results.Keys|;
    if partial && forall i :: 0 <= i < |trace| && trace[i].Received? ==> trace[i].handlerErr.None? {
      PartialRunsAllIff(g, slots, trace);
    }
  }
}
