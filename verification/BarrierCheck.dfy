/** The question a master asks at a barrier: has every participating node reported the phase? */
module BarrierCheck {
  import opened Text
  import opened Phases

  /** A Node object: deletion timestamp, rotation annotation, readiness hint for logs. */
  datatype NodeObject = NodeObject(terminating: bool, annotation: string, hint: string)

  datatype NodeItem = NodeItem(name: string, obj: NodeObject)

  type Nodes = map<string, NodeObject>

  /** A node that makes the barrier wait: still in the cluster, not terminating, not there yet. */
  predicate Blocks(nodes: Nodes, name: string, rotationId: string, phase: Phase) {
    && name in nodes
    && !nodes[name].terminating
    && !AtLeast(ReachedPhase(nodes[name].annotation, rotationId), phase)
  }

  predicate Waits(nodes: Nodes, participants: seq<string>, name: string) {
    if |participants| == 0 then name in nodes else name in participants
  }

  /** The participants, or every current node when none are recorded, have reported the phase. */
  ghost predicate EveryoneReached(nodes: Nodes, participants: seq<string>, rotationId: string, phase: Phase) {
    forall name | Waits(nodes, participants, name) :: !Blocks(nodes, name, rotationId, phase)
  }

  /** The check in plain terms: of the recorded nodes, or of all when none are recorded, those still in
      the cluster and not terminating have reported the phase or a later one. */
  lemma EveryoneReachedIff(nodes: Nodes, participants: seq<string>, rotationId: string, phase: Phase)
    ensures EveryoneReached(nodes, participants, rotationId, phase)
       <==> forall n :: n in nodes && (participants == [] || n in participants) && !nodes[n].terminating ==>
              Index(ReachedPhase(nodes[n].annotation, rotationId)) >= Index(phase)
  {
    forall n | n in nodes
      ensures Waits(nodes, participants, n) <==> participants == [] || n in participants
    {
    }
    if forall n :: n in nodes && (participants == [] || n in participants) && !nodes[n].terminating ==>
         Index(ReachedPhase(nodes[n].annotation, rotationId)) >= Index(phase) {
      forall n | Waits(nodes, participants, n) ensures !Blocks(nodes, n, rotationId, phase) {
      }
    }
    if EveryoneReached(nodes, participants, rotationId, phase) {
      forall n | n in nodes && (participants == [] || n in participants) && !nodes[n].terminating
        ensures Index(ReachedPhase(nodes[n].annotation, rotationId)) >= Index(phase)
      {
        assert !Blocks(nodes, n, rotationId, phase);
      }
    }
  }

  /** With recorded participants, a node outside them makes no difference, reporting or not. */
  lemma OutsiderIgnored(nodes: Nodes, participants: seq<string>, n: string, obj: NodeObject, rotationId: string,
                        phase: Phase)
    requires participants != [] && n !in participants
    ensures EveryoneReached(nodes[n := obj], participants, rotationId, phase)
       <==> EveryoneReached(nodes, participants, rotationId, phase)
  {
    EveryoneReachedIff(nodes, participants, rotationId, phase);
    EveryoneReachedIff(nodes[n := obj], participants, rotationId, phase);
    assert forall m | m in participants :: m in nodes[n := obj] <==> m in nodes;
  }

  // ---------------------------------------------------------------- what the loops build

  /** The Node list as the map the source fills. */
  function ByName(items: seq<NodeItem>): Nodes {
    if |items| == 0 then map[]
    else
      var last := items[|items| - 1];
      ByName(items[..|items| - 1])[last.name := last.obj]
  }

  function AllCurrent(items: seq<NodeItem>): seq<string> {
    if |items| == 0 then []
    else
      var last := items[|items| - 1];
      AllCurrent(items[..|items| - 1]) + (if last.obj.terminating then [] else [last.name])
  }

  function FormatPending(name: string, obj: NodeObject): string {
    if obj.hint != "" then name + "(" + obj.hint + ")" else name
  }

  function PendingOf(nodes: Nodes, names: seq<string>, rotationId: string, phase: Phase): seq<string> {
    if |names| == 0 then []
    else
      var last := names[|names| - 1];
      PendingOf(nodes, names[..|names| - 1], rotationId, phase)
      + (if Blocks(nodes, last, rotationId, phase) then [FormatPending(last, nodes[last])] else [])
  }

  lemma {:induction false} CurrentAreListed(items: seq<NodeItem>)
    ensures forall n :: n in AllCurrent(items) ==> n in ByName(items)
    ensures forall n :: n in ByName(items) && !ByName(items)[n].terminating ==> n in AllCurrent(items)
  {
    if |items| > 0 {
      CurrentAreListed(items[..|items| - 1]);
    }
  }

  /** The pending list names every blocking node and no other. */
  lemma {:induction false} PendingNamesBlockers(nodes: Nodes, names: seq<string>, rotationId: string, phase: Phase)
    ensures forall n | n in names && Blocks(nodes, n, rotationId, phase) ::
      FormatPending(n, nodes[n]) in PendingOf(nodes, names, rotationId, phase)
    ensures PendingOf(nodes, names, rotationId, phase) == []
      <==> forall n | n in names :: !Blocks(nodes, n, rotationId, phase)
  {
    if |names| > 0 {
      var last, rest := names[|names| - 1], names[..|names| - 1];
      PendingNamesBlockers(nodes, rest, rotationId, phase);
      assert names == rest + [last];
    }
  }

  // ---------------------------------------------------------------- the check

  /** AllNodesReached on a node list and the participants read after it. */
  method AllNodesReached(items: seq<NodeItem>, recorded: seq<string>, rotationId: string, phase: Phase)
    returns (ok: bool, pending: seq<string>)
    ensures ok <==> EveryoneReached(ByName(items), recorded, rotationId, phase)
    ensures ok <==> forall n ::
      n in ByName(items) && (recorded == [] || n in recorded) && !ByName(items)[n].terminating ==>
      Index(ReachedPhase(ByName(items)[n].annotation, rotationId)) >= Index(phase)
    ensures ok <==> pending == []
    ensures forall n | Waits(ByName(items), recorded, n) && Blocks(ByName(items), n, rotationId, phase) ::
      FormatPending(n, ByName(items)[n]) in pending
  {
    var byName: Nodes := map[];
    var allCurrent: seq<string> := [];
    for i := 0 to |items|
      invariant byName == ByName(items[..i]) && allCurrent == AllCurrent(items[..i])
    {
      assert items[..i + 1][..i] == items[..i];
      byName := byName[items[i].name := items[i].obj];
      if !items[i].obj.terminating {
        allCurrent := allCurrent + [items[i].name];
      }
    }
    assert items[..|items|] == items;
    var participants := recorded;
    if |participants| == 0 {
      participants := allCurrent;
    }
    pending := [];
    for i := 0 to |participants|
      invariant pending == PendingOf(byName, participants[..i], rotationId, phase)
    {
      assert participants[..i + 1][..i] == participants[..i];
      var name := participants[i];
      if name !in byName || byName[name].terminating {
        continue;
      }
      var reached := ReachedPhase(byName[name].annotation, rotationId);
      if !AtLeast(reached, phase) {
        pending := pending + [FormatPending(name, byName[name])];
      }
    }
    assert participants[..|participants|] == participants;
    ok := |pending| == 0;
    PendingNamesBlockers(byName, participants, rotationId, phase);
    CurrentAreListed(items);
    EveryoneReachedIff(byName, recorded, rotationId, phase);
    assert forall n | Blocks(byName, n, rotationId, phase) :: Waits(byName, recorded, n) <==> n in participants;
  }
}
