/** What a run of the phase scheduler may look like, as a sequence of events, and what follows from
    it. The events are those the scheduler loop sees: it starts a phase, and it receives and handles
    one that has ended. Which running phase ends next, and how, is arbitrary. */
module PhaseTrace {
  import opened Text
  import opened PhaseGraph

  type Err = string

  datatype Event =
    | Started(id: Id)
    | Received(id: Id, runErr: Option<Err>, handlerErr: Option<Err>)

  // ---------------------------------------------------------------- state of a trace

  function StartedIds(tr: seq<Event>): set<Id> {
    if |tr| == 0 then {}
    else StartedIds(tr[..|tr| - 1]) + (if tr[|tr| - 1].Started? then {tr[|tr| - 1].id} else {})
  }

  function ReceivedIds(tr: seq<Event>): set<Id> {
    if |tr| == 0 then {}
    else ReceivedIds(tr[..|tr| - 1]) + (if tr[|tr| - 1].Received? then {tr[|tr| - 1].id} else {})
  }

  function Running(tr: seq<Event>): set<Id> {
    StartedIds(tr) - ReceivedIds(tr)
  }

  /** The phase lets its dependents go: its handler accepted it, and it succeeded or the run is partial. */
  predicate Releases(e: Event, partial: bool) {
    e.Received? && e.handlerErr.None? && (e.runErr.None? || partial)
  }

  predicate Halts(e: Event, partial: bool) {
    e.Received? && !Releases(e, partial)
  }

  function ReleasedIds(tr: seq<Event>, partial: bool): set<Id> {
    if |tr| == 0 then {}
    else ReleasedIds(tr[..|tr| - 1], partial) + (if Releases(tr[|tr| - 1], partial) then {tr[|tr| - 1].id} else {})
  }

  predicate Halted(tr: seq<Event>, partial: bool) {
    |tr| > 0 && (Halted(tr[..|tr| - 1], partial) || Halts(tr[|tr| - 1], partial))
  }

  predicate DepsReleased(g: Graph, partial: bool, tr: seq<Event>, id: Id)
    requires id in Tasks(g)
  {
    forall d | d in g.registry[id] && d in Tasks(g) :: d in ReleasedIds(tr, partial)
  }

  predicate IsReady(g: Graph, partial: bool, tr: seq<Event>, id: Id) {
    id in Tasks(g) && id !in StartedIds(tr) && DepsReleased(g, partial, tr, id)
  }

  ghost predicate NothingReady(g: Graph, partial: bool, tr: seq<Event>) {
    forall t :: !IsReady(g, partial, tr, t)
  }

  // ---------------------------------------------------------------- valid traces

  /** The scheduler starts the ready phase that comes first in the catalog, as long as it may and a
      slot is free; it waits for a running phase only when it can start nothing. */
  ghost predicate MayFollow(g: Graph, slots: int, partial: bool, tr: seq<Event>, e: Event)
    requires UniqueIds(g)
  {
    match e
    case Started(id) =>
      && !Halted(tr, partial) && |Running(tr)| < slots && IsReady(g, partial, tr, id)
      && forall t | IsReady(g, partial, tr, t) :: Position(g, id) <= Position(g, t)
    case Received(id, runErr, _) =>
      && id in Running(tr)
      && (Halted(tr, partial) || |Running(tr)| >= slots || NothingReady(g, partial, tr))
      && (id in Tasks(g) && g.plan[Position(g, id)].skipRun ==> runErr.None?)
  }

  ghost predicate ValidTrace(g: Graph, slots: int, partial: bool, tr: seq<Event>)
    requires UniqueIds(g)
  {
    |tr| > 0 ==>
      ValidTrace(g, slots, partial, tr[..|tr| - 1])
      && MayFollow(g, slots, partial, tr[..|tr| - 1], tr[|tr| - 1])
  }

  ghost predicate IsFinished(g: Graph, partial: bool, tr: seq<Event>) {
    Running(tr) == {} && (Halted(tr, partial) || NothingReady(g, partial, tr))
  }

  // ---------------------------------------------------------------- verdict

  datatype Verdict = Completed | HandlerFailed(err: Err) | PhaseFailed(err: Err) | Incomplete

  function FirstHandlerErr(tr: seq<Event>): Option<Err> {
    if |tr| == 0 then None
    else if FirstHandlerErr(tr[..|tr| - 1]).Some? then FirstHandlerErr(tr[..|tr| - 1])
    else if tr[|tr| - 1].Received? then tr[|tr| - 1].handlerErr
    else None
  }

  function FirstRunErr(tr: seq<Event>): Option<Err> {
    if |tr| == 0 then None
    else if FirstRunErr(tr[..|tr| - 1]).Some? then FirstRunErr(tr[..|tr| - 1])
    else if tr[|tr| - 1].Received? then tr[|tr| - 1].runErr
    else None
  }

  /** What the scheduler returns: the first handler error, else the first phase error unless the run
      is partial, else whether every task has a result. */
  function VerdictOf(g: Graph, partial: bool, tr: seq<Event>): Verdict {
    if FirstHandlerErr(tr).Some? then HandlerFailed(FirstHandlerErr(tr).value)
    else if FirstRunErr(tr).Some? then (if partial then Completed else PhaseFailed(FirstRunErr(tr).value))
    else if |ReceivedIds(tr)| != |Tasks(g)| then Incomplete
    else Completed
  }

  // ---------------------------------------------------------------- reading a trace by index

  lemma {:induction false} IdsByIndex(tr: seq<Event>, partial: bool, id: Id)
    ensures id in StartedIds(tr) <==> exists i :: 0 <= i < |tr| && tr[i] == Started(id)
    ensures id in ReceivedIds(tr) <==> exists i :: 0 <= i < |tr| && tr[i].Received? && tr[i].id == id
    ensures id in ReleasedIds(tr, partial) <==> exists i :: 0 <= i < |tr| && Releases(tr[i], partial) && tr[i].id == id
    ensures Halted(tr, partial) <==> exists i :: 0 <= i < |tr| && Halts(tr[i], partial)
  {
    if |tr| > 0 {
      var rest := tr[..|tr| - 1];
      IdsByIndex(rest, partial, id);
      assert forall i :: 0 <= i < |rest| ==> rest[i] == tr[i];
    }
  }

  lemma {:induction false} ValidAt(g: Graph, slots: int, partial: bool, tr: seq<Event>, i: nat)
    requires UniqueIds(g) && ValidTrace(g, slots, partial, tr) && i < |tr|
    ensures ValidTrace(g, slots, partial, tr[..i]) && MayFollow(g, slots, partial, tr[..i], tr[i])
  {
    var rest := tr[..|tr| - 1];
    if i < |tr| - 1 {
      ValidAt(g, slots, partial, rest, i);
      assert rest[..i] == tr[..i];
    }
  }

  // ---------------------------------------------------------------- safety

  /** A phase starts only after each of its in-plan dependencies has been received and handled, and
      has succeeded unless the run is partial. */
  lemma StartsAfterDependencies(g: Graph, slots: int, partial: bool, tr: seq<Event>, j: nat, dep: Id) returns (i: nat)
    requires UniqueIds(g) && ValidTrace(g, slots, partial, tr)
    requires j < |tr| && tr[j].Started? && DependsOn(g, tr[j].id, dep)
    ensures i < j && tr[i].Received? && tr[i].id == dep
    ensures tr[i].handlerErr.None? && (tr[i].runErr.None? || partial)
  {
    ValidAt(g, slots, partial, tr, j);
    IdsByIndex(tr[..j], partial, dep);
    i :| 0 <= i < j && Releases(tr[..j][i], partial) && tr[..j][i].id == dep;
  }

  /** What has been received was started, and only tasks are started. */
  lemma {:induction false} ReceivedWereStarted(g: Graph, slots: int, partial: bool, tr: seq<Event>)
    requires UniqueIds(g) && ValidTrace(g, slots, partial, tr)
    ensures ReleasedIds(tr, partial) <= ReceivedIds(tr) <= StartedIds(tr) <= Tasks(g)
  {
    if |tr| > 0 {
      ReceivedWereStarted(g, slots, partial, tr[..|tr| - 1]);
    }
  }

  lemma IdAppears(tr: seq<Event>, partial: bool, i: nat, j: nat)
    requires i < j <= |tr|
    ensures tr[i].Started? ==> tr[i].id in StartedIds(tr[..j])
    ensures tr[i].Received? ==> tr[i].id in ReceivedIds(tr[..j])
  {
    IdsByIndex(tr[..j], partial, tr[i].id);
    assert tr[..j][i] == tr[i];
  }

  /** No phase starts twice, none is received that was not started, none is received twice. */
  lemma NoRepeats(g: Graph, slots: int, partial: bool, tr: seq<Event>, i: nat, j: nat)
    requires UniqueIds(g) && ValidTrace(g, slots, partial, tr) && i < j < |tr|
    ensures tr[i].id == tr[j].id ==> tr[i].Started? && tr[j].Received?
  {
    ValidAt(g, slots, partial, tr, j);
    ReceivedWereStarted(g, slots, partial, tr[..j]);
    IdAppears(tr, partial, i, j);
  }

  lemma StartIsFresh(g: Graph, slots: int, partial: bool, rest: seq<Event>, e: Event)
    requires UniqueIds(g) && ValidTrace(g, slots, partial, rest) && MayFollow(g, slots, partial, rest, e)
    ensures e.Started? ==> |Running(rest)| < slots && e.id !in ReceivedIds(rest)
  {
    ReceivedWereStarted(g, slots, partial, rest);
  }

  lemma SlotsAfter(rest: seq<Event>, e: Event, slots: int)
    requires |Running(rest)| <= slots
    requires e.Started? ==> |Running(rest)| < slots && e.id !in ReceivedIds(rest)
    ensures |Running(rest + [e])| <= slots
  {
    assert (rest + [e])[..|rest|] == rest;
    if e.Started? {
      assert Running(rest + [e]) == Running(rest) + {e.id};
    } else {
      assert Running(rest + [e]) == Running(rest) - {e.id};
    }
  }

  /** Never more phases at once than there are slots. */
  lemma {:induction false} SlotsRespected(g: Graph, slots: int, partial: bool, tr: seq<Event>)
    requires UniqueIds(g) && ValidTrace(g, slots, partial, tr) && slots >= 0
    ensures |Running(tr)| <= slots
  {
    if |tr| == 0 {
      assert Running(tr) == {};
    } else {
      var rest, e := tr[..|tr| - 1], tr[|tr| - 1];
      SlotsRespected(g, slots, partial, rest);
      StartIsFresh(g, slots, partial, rest, e);
      SlotsAfter(rest, e, slots);
      assert tr == rest + [e];
    }
  }

  /** Some received event is a handler error, or a phase error outside partial mode, exactly when the
      trace is halted. */
  lemma HaltedIff(tr: seq<Event>, partial: bool)
    ensures Halted(tr, partial)
       <==> exists i :: 0 <= i < |tr| && tr[i].Received? && (tr[i].handlerErr.Some? || (!partial && tr[i].runErr.Some?))
  {
    IdsByIndex(tr, partial, "");
    if exists i :: 0 <= i < |tr| && tr[i].Received? && (tr[i].handlerErr.Some? || (!partial && tr[i].runErr.Some?)) {
      var i :| 0 <= i < |tr| && tr[i].Received? && (tr[i].handlerErr.Some? || (!partial && tr[i].runErr.Some?));
      assert Halts(tr[i], partial);
    }
  }

  /** A phase may start next exactly when no handler error (and, outside partial mode, no phase error)
      was received, a slot is free, the phase has not started, each of its in-plan dependencies was
      received without a handler error and, outside partial mode, without a phase error, and no
      earlier phase of the catalog could start instead. */
  lemma MayStartIff(g: Graph, slots: int, partial: bool, tr: seq<Event>, id: Id)
    requires UniqueIds(g) && id in Tasks(g)
    ensures MayFollow(g, slots, partial, tr, Started(id))
       <==>
       && (forall i :: 0 <= i < |tr| && tr[i].Received? ==> tr[i].handlerErr.None? && (partial || tr[i].runErr.None?))
       && |Running(tr)| < slots
       && Started(id) !in tr
       && (forall d :: d in g.registry[id] && d in Tasks(g) ==>
             exists i :: 0 <= i < |tr| && tr[i].Received? && tr[i].id == d
                         && tr[i].handlerErr.None? && (partial || tr[i].runErr.None?))
       && forall t | IsReady(g, partial, tr, t) :: Position(g, id) <= Position(g, t)
  {
    HaltedIff(tr, partial);
    IdsByIndex(tr, partial, id);
    forall d | d in g.registry[id] && d in Tasks(g)
      ensures d in ReleasedIds(tr, partial)
         <==> exists i :: 0 <= i < |tr| && tr[i].Received? && tr[i].id == d
                          && tr[i].handlerErr.None? && (partial || tr[i].runErr.None?)
    {
      IdsByIndex(tr, partial, d);
      if i :| 0 <= i < |tr| && tr[i].Received? && tr[i].id == d
              && tr[i].handlerErr.None? && (partial || tr[i].runErr.None?) {
        assert Releases(tr[i], partial);
      }
    }
  }

  /** After a handler error, or a phase error outside partial mode, nothing more starts. */
  lemma AbortStopsStarting(g: Graph, slots: int, partial: bool, tr: seq<Event>, i: nat, j: nat)
    requires UniqueIds(g) && ValidTrace(g, slots, partial, tr) && i < j < |tr|
    requires tr[i].Received? && (tr[i].handlerErr.Some? || (!partial && tr[i].runErr.Some?))
    ensures tr[j].Received?
  {
    ValidAt(g, slots, partial, tr, j);
    assert tr[..j][i] == tr[i];
    HaltedIff(tr[..j], partial);
  }

  /** And nothing else stops it: a finished run without such an error left a phase unstarted exactly when
      an in-plan dependency of the phase was not received either. */
  lemma UnstartedIff(g: Graph, slots: int, partial: bool, tr: seq<Event>, t: Id)
    requires UniqueIds(g) && ValidTrace(g, slots, partial, tr) && IsFinished(g, partial, tr)
    requires t in Tasks(g)
    requires forall i :: 0 <= i < |tr| && tr[i].Received? ==> tr[i].handlerErr.None? && (partial || tr[i].runErr.None?)
    ensures t !in StartedIds(tr) <==> exists d :: DependsOn(g, t, d) && d !in ReceivedIds(tr)
  {
    HaltedIff(tr, partial);
    NoStopsState(g, slots, partial, tr);
    if t !in StartedIds(tr) {
      assert !IsReady(g, partial, tr, t);
      var d :| d in g.registry[t] && d in Tasks(g) && d !in ReleasedIds(tr, partial);
      assert DependsOn(g, t, d);
    } else {
      IdsByIndex(tr, partial, t);
      var j :| 0 <= j < |tr| && tr[j] == Started(t);
      forall d | DependsOn(g, t, d) ensures d in ReceivedIds(tr) {
        var i := StartsAfterDependencies(g, slots, partial, tr, j, d);
        IdsByIndex(tr, partial, d);
      }
    }
  }

  lemma FinishedReceivesAll(g: Graph, slots: int, partial: bool, tr: seq<Event>, i: nat) returns (j: nat)
    requires UniqueIds(g) && ValidTrace(g, slots, partial, tr) && IsFinished(g, partial, tr)
    requires i < |tr| && tr[i].Started?
    ensures i < j < |tr| && tr[j].Received? && tr[j].id == tr[i].id
  {
    IdsByIndex(tr, partial, tr[i].id);
    assert tr[i].id !in Running(tr);
    j :| 0 <= j < |tr| && tr[j].Received? && tr[j].id == tr[i].id;
    if j < i {
      NoRepeats(g, slots, partial, tr, j, i);
    }
  }

  /** No handler error, and no phase error, among the first `n` events. */
  predicate NoHandlerErrBefore(tr: seq<Event>, n: nat)
    requires n <= |tr|
  {
    forall k :: 0 <= k < n && tr[k].Received? ==> tr[k].handlerErr.None?
  }

  predicate NoRunErrBefore(tr: seq<Event>, n: nat)
    requires n <= |tr|
  {
    forall k :: 0 <= k < n && tr[k].Received? ==> tr[k].runErr.None?
  }

  /** The error that is returned is the earliest of its kind. */
  lemma {:induction false} FirstErrorIsEarliest(tr: seq<Event>)
    ensures FirstHandlerErr(tr).Some? ==>
      exists i :: 0 <= i < |tr| && tr[i].Received?
        && tr[i].handlerErr == FirstHandlerErr(tr) && NoHandlerErrBefore(tr, i)
    ensures FirstHandlerErr(tr).None? ==> NoHandlerErrBefore(tr, |tr|)
    ensures FirstRunErr(tr).Some? ==>
      exists i :: 0 <= i < |tr| && tr[i].Received? && tr[i].runErr == FirstRunErr(tr) && NoRunErrBefore(tr, i)
    ensures FirstRunErr(tr).None? ==> NoRunErrBefore(tr, |tr|)
  {
    if |tr| > 0 {
      var rest := tr[..|tr| - 1];
      FirstErrorIsEarliest(rest);
      assert forall i :: 0 <= i < |rest| ==> rest[i] == tr[i];
    }
  }

  // ---------------------------------------------------------------- completeness

  ghost predicate NoFailures(tr: seq<Event>) {
    forall i :: 0 <= i < |tr| && tr[i].Received? ==> tr[i].runErr.None? && tr[i].handlerErr.None?
  }

  /** Nothing that stops the scheduler: no handler error and, outside partial mode, no phase error. */
  ghost predicate NoStops(tr: seq<Event>, partial: bool) {
    forall i :: 0 <= i < |tr| && tr[i].Received? ==> tr[i].handlerErr.None? && (partial || tr[i].runErr.None?)
  }

  lemma {:induction false} NoStopsState(g: Graph, slots: int, partial: bool, tr: seq<Event>)
    requires UniqueIds(g) && ValidTrace(g, slots, partial, tr) && NoStops(tr, partial)
    ensures !Halted(tr, partial) && ReleasedIds(tr, partial) == ReceivedIds(tr) <= StartedIds(tr) <= Tasks(g)
    ensures FirstHandlerErr(tr) == None && (!partial ==> FirstRunErr(tr) == None)
  {
    if |tr| > 0 {
      var rest := tr[..|tr| - 1];
      assert forall i :: 0 <= i < |rest| ==> rest[i] == tr[i];
      NoStopsState(g, slots, partial, rest);
    }
  }

  lemma NoFailuresState(g: Graph, slots: int, partial: bool, tr: seq<Event>)
    requires UniqueIds(g) && ValidTrace(g, slots, partial, tr) && NoFailures(tr)
    ensures NoStops(tr, partial) && FirstHandlerErr(tr) == None && FirstRunErr(tr) == None
    ensures !Halted(tr, partial) && ReleasedIds(tr, partial) == ReceivedIds(tr) <= StartedIds(tr) <= Tasks(g)
  {
    NoStopsState(g, slots, partial, tr);
    FirstErrorIsEarliest(tr);
  }

  lemma SubsetOfSameSize<T>(a: set<T>, b: set<T>)
    requires a <= b && |a| == |b|
    ensures a == b
  {
    assert |b - a| == |b| - |a|;
  }

  lemma SizeDiffersIff<T>(a: set<T>, b: set<T>)
    requires a <= b
    ensures |a| != |b| <==> exists x :: x in b && x !in a
  {
    assert |b - a| == |b| - |a|;
    if forall x :: x in b ==> x in a {
      assert b - a == {};
    } else {
      var x :| x in b && x !in a;
      assert x in b - a;
    }
  }

  /** A run that nothing stops leaves out exactly the phases it can never start, and those contain a cycle. */
  lemma UnrunHasCycle(g: Graph, slots: int, partial: bool, tr: seq<Event>) returns (path: seq<Id>)
    requires UniqueIds(g) && ValidTrace(g, slots, partial, tr) && IsFinished(g, partial, tr)
    requires NoStops(tr, partial) && ReceivedIds(tr) != Tasks(g)
    ensures IsCycle(g, path) && forall i :: 0 <= i < |path| ==> path[i] in Tasks(g) - ReceivedIds(tr)
  {
    NoStopsState(g, slots, partial, tr);
    var stuck := Tasks(g) - ReceivedIds(tr);
    assert StartedIds(tr) == ReceivedIds(tr);
    forall t | t in stuck ensures IsStuck(g, stuck, t) {
      assert !IsReady(g, partial, tr, t);
      var d :| d in g.registry[t] && d in Tasks(g) && d !in ReleasedIds(tr, partial);
      assert DependsOn(g, t, d);
    }
    path := StuckSetHasCycle(g, stuck);
  }

  /** Where each phase started. */
  function StartIndex(tr: seq<Event>, id: Id): nat
    requires id in StartedIds(tr)
  {
    if tr[|tr| - 1] == Started(id) then |tr| - 1 else StartIndex(tr[..|tr| - 1], id)
  }

  lemma {:induction false} StartIndexFinds(tr: seq<Event>, id: Id)
    requires id in StartedIds(tr)
    ensures StartIndex(tr, id) < |tr| && tr[StartIndex(tr, id)] == Started(id)
  {
    if tr[|tr| - 1] != Started(id) {
      StartIndexFinds(tr[..|tr| - 1], id);
    }
  }

  lemma CompleteRunIsAcyclic(g: Graph, slots: int, partial: bool, tr: seq<Event>)
    requires UniqueIds(g) && ValidTrace(g, slots, partial, tr) && ReceivedIds(tr) == Tasks(g)
    ensures Acyclic(g)
  {
    ReceivedWereStarted(g, slots, partial, tr);
    var rank := map id | id in Tasks(g) :: StartIndex(tr, id);
    forall a, b | DependsOn(g, a, b) ensures a in rank && b in rank && rank[b] < rank[a] {
      StartIndexFinds(tr, a);
      StartIndexFinds(tr, b);
      var i := StartsAfterDependencies(g, slots, partial, tr, rank[a], b);
      if rank[b] > i {
        NoRepeats(g, slots, partial, tr, i, rank[b]);
      }
    }
    RankedIsAcyclic(g, rank);
  }

  /** For every number of slots and every completion order: without failures the run completes
      exactly when the in-plan graph is acyclic, and then every task has run; otherwise it reports
      the run incomplete. */
  lemma CompletesIffAcyclic(g: Graph, slots: int, partial: bool, tr: seq<Event>)
    requires UniqueIds(g) && ValidTrace(g, slots, partial, tr) && IsFinished(g, partial, tr) && NoFailures(tr)
    ensures VerdictOf(g, partial, tr) == Completed <==> Acyclic(g)
    ensures VerdictOf(g, partial, tr) == Completed <==> ReceivedIds(tr) == StartedIds(tr) == Tasks(g)
    ensures VerdictOf(g, partial, tr) in {Completed, Incomplete}
  {
    NoFailuresState(g, slots, partial, tr);
    if ReceivedIds(tr) == Tasks(g) {
      CompleteRunIsAcyclic(g, slots, partial, tr);
    } else {
      var path := UnrunHasCycle(g, slots, partial, tr);
      if |ReceivedIds(tr)| == |Tasks(g)| {
        SubsetOfSameSize(ReceivedIds(tr), Tasks(g));
      }
    }
  }

  /** A partial run goes on past failed phases: whatever phases failed, as long as no handler did, it
      completes without an error, and every task has run exactly when the in-plan graph is acyclic. */
  lemma PartialRunsAllIff(g: Graph, slots: int, tr: seq<Event>)
    requires UniqueIds(g) && ValidTrace(g, slots, true, tr) && IsFinished(g, true, tr)
    requires forall i :: 0 <= i < |tr| && tr[i].Received? ==> tr[i].handlerErr.None?
    ensures ReceivedIds(tr) == Tasks(g) <==> Acyclic(g)
    ensures Acyclic(g) ==> VerdictOf(g, true, tr) == Completed
  {
    NoStopsState(g, slots, true, tr);
    if ReceivedIds(tr) == Tasks(g) {
      CompleteRunIsAcyclic(g, slots, true, tr);
    } else {
      var path := UnrunHasCycle(g, slots, true, tr);
    }
  }

  /** What is returned, in terms of the errors received: the handler's failure before the phase's, the
      phase's only outside partial mode, and the incomplete graph only when there was no error at all. */
  lemma VerdictIff(g: Graph, slots: int, partial: bool, tr: seq<Event>)
    requires UniqueIds(g) && ValidTrace(g, slots, partial, tr)
    ensures VerdictOf(g, partial, tr).HandlerFailed?
       <==> exists i :: 0 <= i < |tr| && tr[i].Received? && tr[i].handlerErr.Some?
    ensures VerdictOf(g, partial, tr).PhaseFailed?
       <==> !partial && (exists i :: 0 <= i < |tr| && tr[i].Received? && tr[i].runErr.Some?)
            && forall i :: 0 <= i < |tr| && tr[i].Received? ==> tr[i].handlerErr.None?
    ensures VerdictOf(g, partial, tr).Incomplete?
       <==> (exists t :: t in Tasks(g) && t !in ReceivedIds(tr))
            && forall i :: 0 <= i < |tr| && tr[i].Received? ==> tr[i].handlerErr.None? && tr[i].runErr.None?
    ensures VerdictOf(g, partial, tr).HandlerFailed? ==>
      exists i :: 0 <= i < |tr| && tr[i].Received? && tr[i].handlerErr == Some(VerdictOf(g, partial, tr).err)
                  && NoHandlerErrBefore(tr, i)
    ensures VerdictOf(g, partial, tr).PhaseFailed? ==>
      exists i :: 0 <= i < |tr| && tr[i].Received? && tr[i].runErr == Some(VerdictOf(g, partial, tr).err)
                  && NoRunErrBefore(tr, i)
  {
    FirstErrorIsEarliest(tr);
    ReceivedWereStarted(g, slots, partial, tr);
    SizeDiffersIff(ReceivedIds(tr), Tasks(g));
  }

  // ---------------------------------------------------------------- serial runs

  ghost predicate CatalogRespectsDependencies(g: Graph)
    requires UniqueIds(g)
  {
    forall a, b | DependsOn(g, a, b) :: Position(g, b) < Position(g, a)
  }

  /** With one slot and no failures, a phase starts only when all earlier catalog entries have run. */
  lemma {:induction false} EarlierStartedFirst(g: Graph, partial: bool, tr: seq<Event>, j: nat, t: Id)
    requires UniqueIds(g) && ValidTrace(g, 1, partial, tr) && NoFailures(tr) && CatalogRespectsDependencies(g)
    requires j < |tr| && tr[j].Started? && tr[j].id in Tasks(g) && t in Tasks(g)
    requires Position(g, t) < Position(g, tr[j].id)
    ensures t in StartedIds(tr[..j])
    decreases Position(g, t)
  {
    var before := tr[..j];
    ValidAt(g, 1, partial, tr, j);
    NoFailuresState(g, 1, partial, before);
    assert |Running(before)| == 0;
    assert Running(before) == {};
    if t !in StartedIds(before) {
      forall d | d in g.registry[t] && d in Tasks(g) ensures d in ReleasedIds(before, partial) {
        assert DependsOn(g, t, d);
        EarlierStartedFirst(g, partial, tr, j, d);
        assert d !in Running(before);
      }
      assert IsReady(g, partial, before, t);
    }
  }

  lemma LaterStartIsLaterInCatalog(g: Graph, partial: bool, tr: seq<Event>, i: nat, j: nat)
    requires UniqueIds(g) && ValidTrace(g, 1, partial, tr) && NoFailures(tr) && CatalogRespectsDependencies(g)
    requires i < j < |tr| && tr[i].Started? && tr[j].Started?
    requires tr[i].id in Tasks(g) && tr[j].id in Tasks(g)
    ensures Position(g, tr[i].id) < Position(g, tr[j].id)
  {
    NoRepeats(g, 1, partial, tr, i, j);
    if Position(g, tr[j].id) < Position(g, tr[i].id) {
      EarlierStartedFirst(g, partial, tr, i, tr[j].id);
      IdsByIndex(tr[..i], partial, tr[j].id);
      var k :| 0 <= k < i && tr[..i][k] == Started(tr[j].id);
      NoRepeats(g, 1, partial, tr, k, j);
    }
  }

  /** Serial order: with one slot, no failures and a catalog that respects the dependencies, phases
      start in catalog order, and all of them do. */
  lemma SerialRunFollowsCatalog(g: Graph, partial: bool, tr: seq<Event>)
    requires UniqueIds(g) && ValidTrace(g, 1, partial, tr) && IsFinished(g, partial, tr)
    requires NoFailures(tr) && CatalogRespectsDependencies(g)
    ensures StartedIds(tr) == Tasks(g)
    ensures forall i :: 0 <= i < |tr| ==> tr[i].id in Tasks(g)
    ensures forall i, j :: 0 <= i < j < |tr| && tr[i].Started? && tr[j].Started? ==>
      Position(g, tr[i].id) < Position(g, tr[j].id)
  {
    CatalogOrderIsAcyclic(g);
    CompletesIffAcyclic(g, 1, partial, tr);
    forall i | 0 <= i < |tr| ensures tr[i].id in Tasks(g) {
      ReceivedIsTask(g, 1, partial, tr, i);
    }
    forall i, j | 0 <= i < j < |tr| && tr[i].Started? && tr[j].Started?
      ensures Position(g, tr[i].id) < Position(g, tr[j].id)
    {
      LaterStartIsLaterInCatalog(g, partial, tr, i, j);
    }
  }

  lemma CatalogOrderIsAcyclic(g: Graph)
    requires UniqueIds(g) && CatalogRespectsDependencies(g)
    ensures Acyclic(g)
  {
    RankedIsAcyclic(g, map id | id in Tasks(g) :: Position(g, id));
  }

  // ---------------------------------------------------------------- the handler's resource map

  /** phaseResources just before event `j`: what the handlers so far have registered. `registers` are
      the phases whose Register call succeeds. */
  function ResourcesBefore(tr: seq<Event>, j: nat, registers: set<Id>): set<Id>
    requires j <= |tr|
  {
    ReceivedIds(tr[..j]) * registers
  }

  function Filter(ids: seq<Id>, keep: set<Id>): seq<Id> {
    if |ids| == 0 then []
    else (if ids[0] in keep then [ids[0]] else []) + Filter(ids[1..], keep)
  }

  lemma {:induction false} FilterAgrees(ids: seq<Id>, a: set<Id>, b: set<Id>)
    requires forall i :: 0 <= i < |ids| ==> (ids[i] in a <==> ids[i] in b)
    ensures Filter(ids, a) == Filter(ids, b)
  {
    if |ids| > 0 {
      FilterAgrees(ids[1..], a, b);
    }
  }

  lemma {:induction false} FilterCounts(ids: seq<Id>, keep: set<Id>)
    ensures forall d :: multiset(Filter(ids, keep))[d] == if d in keep then multiset(ids)[d] else 0
  {
    if |ids| > 0 {
      FilterCounts(ids[1..], keep);
      assert ids == [ids[0]] + ids[1..];
    }
  }

  /** A dependency's handler has run before this phase's exactly when it is in the plan. */
  lemma DependencyHandled(g: Graph, slots: int, partial: bool, tr: seq<Event>, s: nat, j: nat, dep: Id)
    requires UniqueIds(g) && ValidTrace(g, slots, partial, tr) && s < j < |tr| && tr[s].Started?
    requires tr[s].id in Tasks(g) && dep in g.registry[tr[s].id]
    ensures dep in ReceivedIds(tr[..j]) <==> dep in Tasks(g)
  {
    IdsByIndex(tr[..j], partial, dep);
    if dep in Tasks(g) {
      assert DependsOn(g, tr[s].id, dep);
      var k := StartsAfterDependencies(g, slots, partial, tr, s, dep);
      assert tr[..j][k] == tr[k];
    }
    if dep in ReceivedIds(tr[..j]) {
      var k :| 0 <= k < j && tr[..j][k].Received? && tr[..j][k].id == dep;
      ReceivedIsTask(g, slots, partial, tr, k);
    }
  }

  /** When a phase's handler builds its DependsOn list, every in-plan dependency has been handled:
      the list is exactly the declared dependencies that are in the plan and could be registered. */
  lemma HandlerSeesAllDependencies(g: Graph, slots: int, partial: bool, tr: seq<Event>, j: nat, registers: set<Id>)
    requires UniqueIds(g) && ValidTrace(g, slots, partial, tr)
    requires j < |tr| && tr[j].Received?
    ensures tr[j].id in Tasks(g)
    ensures Filter(g.registry[tr[j].id], ResourcesBefore(tr, j, registers))
         == Filter(g.registry[tr[j].id], Tasks(g) * registers)
    ensures forall d :: multiset(Filter(g.registry[tr[j].id], ResourcesBefore(tr, j, registers)))[d]
                     == if d in Tasks(g) && d in registers then multiset(g.registry[tr[j].id])[d] else 0
  {
    ValidAt(g, slots, partial, tr, j);
    IdsByIndex(tr[..j], partial, tr[j].id);
    var s :| 0 <= s < j && tr[..j][s] == Started(tr[j].id);
    assert tr[s] == Started(tr[j].id);
    ReceivedIsTask(g, slots, partial, tr, s);
    var deps := g.registry[tr[j].id];
    forall i | 0 <= i < |deps|
      ensures deps[i] in ResourcesBefore(tr, j, registers) <==> deps[i] in Tasks(g) * registers
    {
      DependencyHandled(g, slots, partial, tr, s, j, deps[i]);
    }
    FilterAgrees(deps, ResourcesBefore(tr, j, registers), Tasks(g) * registers);
    FilterCounts(deps, Tasks(g) * registers);
  }

  lemma ReceivedIsTask(g: Graph, slots: int, partial: bool, tr: seq<Event>, j: nat)
    requires UniqueIds(g) && ValidTrace(g, slots, partial, tr) && j < |tr|
    ensures tr[j].id in Tasks(g)
  {
    ValidAt(g, slots, partial, tr, j);
    if tr[j].Received? {
      IdsByIndex(tr[..j], partial, tr[j].id);
      var s :| 0 <= s < j && tr[..j][s] == Started(tr[j].id);
      ValidAt(g, slots, partial, tr, s);
    }
  }
}
