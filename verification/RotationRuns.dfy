/** Whether a node is owed a rotation, over any sequence of reconcile runs with re-delivered tokens,
    previews, interrupted writes and failures. */
module RotationRuns {
  import opened Text
  import opened RotationHistory

  datatype Operation = Create | CARotate

  /** Config.Operation. */
  function OperationOf(token: string, applied: string): Operation {
    if token != "" && token != applied then CARotate else Create
  }

  /** What a node keeps between runs. `state` is LastCARotationID of the persisted state, None while
      there is no state file. */
  datatype Node = Node(files: Files, state: Option<string>, hasCA: bool)

  /** newNode: never reconciled and without a cluster CA. */
  predicate IsNewNode(n: Node) {
    n.state.None? && !n.hasCA
  }

  function Persisted(n: Node): string {
    match n.state
    case Some(id) => id
    case None => ""
  }

  /** The rotation id a run treats as applied, and whether it writes the marker of a new node. */
  function AppliedId(n: Node, token: string): string {
    var applied := if Finalized(n.files, token) then token else Persisted(n);
    if OperationOf(token, applied).CARotate? && IsNewNode(n) then token else applied
  }

  predicate MarksNewNode(n: Node, token: string, preview: bool) {
    && !preview && IsNewNode(n)
    && OperationOf(token, if Finalized(n.files, token) then token else Persisted(n)).CARotate?
  }

  /** Exactly when a run is ordinary convergence: there is no token, or it is the persisted id, the
      marker or in the history, or the node was never reconciled and holds no CA. */
  lemma CreateIff(n: Node, token: string)
    ensures OperationOf(token, AppliedId(n, token)).Create?
       <==> token == "" || n.state == Some(token)
            || TrimSpace(n.files.marker) == token || token in Fields(n.files.history)
            || (n.state.None? && !n.hasCA)
  {
  }

  /** effectiveCARotationStateID. */
  function EffectiveStateId(n: Node): string {
    if MarkerOf(n.files) != "" then MarkerOf(n.files) else TrimSpace(Persisted(n))
  }

  /** The node during one process: files, state and trigger are changed in place. */
  class Reconciler {
    var node: Node
    var applied: string

    constructor (node: Node)
      ensures this.node == node && this.applied == ""
    {
      this.node, this.applied := node, "";
    }

    /** The classification at the start of run. */
    method Classify(token: string, preview: bool, extent: Extent) returns (operation: Operation)
      modifies this
      ensures applied == AppliedId(old(node), token)
      ensures operation == OperationOf(token, applied)
      ensures node == if MarksNewNode(old(node), token, preview)
                      then old(node).(files := AfterWrite(old(node).files, token, extent)) else old(node)
      ensures operation.Create?
         <==> token == "" || old(node).state == Some(token)
              || TrimSpace(old(node).files.marker) == token || token in Fields(old(node).files.history)
              || (old(node).state.None? && !old(node).hasCA)
      ensures operation.Create? && token != "" ==> applied == token
      ensures operation.CARotate? ==> applied == if old(node).state.Some? then old(node).state.value else ""
      ensures preview || token == "" || old(node).state.Some? || old(node).hasCA
              || TrimSpace(old(node).files.marker) == token || token in Fields(old(node).files.history) ==>
        node == old(node)
    {
      CreateIff(node, token);
      applied := Persisted(node);
      if Finalized(node.files, token) {
        applied := token;
      }
      if OperationOf(token, applied).CARotate? && IsNewNode(node) {
        if !preview {
          var marker := new MarkerFiles(node.files);
          marker.WriteMarker(token, extent);
          node := node.(files := marker.files);
        }
        applied := token;
      }
      operation := OperationOf(token, applied);
    }

    /** Persisting the state after a successful run. */
    method Persist(preview: bool)
      modifies this
      ensures node == if preview then old(node) else old(node).(state := Some(EffectiveStateId(old(node))))
      ensures applied == old(applied)
      ensures !preview && TrimSpace(old(node).files.marker) != "" ==>
        node.state == Some(TrimSpace(old(node).files.marker))
      ensures !preview && TrimSpace(old(node).files.marker) == "" ==>
        node.state == Some(if old(node).state.Some? then TrimSpace(old(node).state.value) else "")
      ensures node.files == old(node).files && node.hasCA == old(node).hasCA
    {
      if preview {
        return;
      }
      var id := MarkerOf(node.files);
      if id == "" {
        id := TrimSpace(Persisted(node));
      }
      node := node.(state := Some(id));
    }
  }

  // ---------------------------------------------------------------- whole histories

  /** `written`: every id whose marker was at some time fully written. */
  datatype System = System(node: Node, written: set<string>)

  /** One event on the node. Finalize is the rotation module writing the marker of the rotation it
      completed, which it does only for one not finalized here. */
  datatype Step =
    | Begin(token: string, preview: bool, extent: Extent)
    | Finalize(id: string, extent: Extent)
    | Persist
    | InstallCA

  /** Tokens are trimmed when loaded; Magnum's contain no white space. */
  predicate IsToken(token: string) {
    token == "" || IsWord(token)
  }

  predicate Enabled(s: System, step: Step) {
    match step
    case Begin(token, _, _) => IsToken(token)
    case Finalize(id, _) => IsWord(id) && !Finalized(s.node.files, id)
    case Persist => true
    case InstallCA => true
  }

  /** The marker write of a step, if it makes one. */
  function MarkerWrite(s: System, step: Step): Option<(string, Extent)> {
    match step
    case Begin(token, preview, extent) => if MarksNewNode(s.node, token, preview) then Some((token, extent)) else None
    case Finalize(id, extent) => Some((id, extent))
    case _ => None
  }

  function Apply(s: System, step: Step): System {
    var wrote := MarkerWrite(s, step);
    if wrote.Some? then
      var (id, extent) := wrote.value;
      System(s.node.(files := AfterWrite(s.node.files, id, extent)),
             if extent.MarkerOnly? || extent.Full? then s.written + {id} else s.written)
    else
      match step
      case Persist => s.(node := s.node.(state := Some(EffectiveStateId(s.node))))
      case InstallCA => s.(node := s.node.(hasCA := true))
      case _ => s
  }

  predicate Init(s: System) {
    s.node.files == Files("", "") && s.node.state.None? && s.written == {}
  }

  predicate IsRun(systems: seq<System>, steps: seq<Step>) {
    && |systems| == |steps| + 1
    && forall i :: 0 <= i < |steps| ==> Enabled(systems[i], steps[i]) && systems[i + 1] == Apply(systems[i], steps[i])
  }

  predicate Traced(s: System, id: string) {
    id == "" || (id in s.written && IsWord(id))
  }

  predicate Inv(s: System) {
    && Traced(s, MarkerOf(s.node.files))
    && (forall id | id in HistoryOf(s.node.files) :: Traced(s, id))
    && Traced(s, Persisted(s.node))
    && IsWindow(HistoryOf(s.node.files))
  }

  /** The history after a step: unchanged, or with the one id a complete write records. */
  function RecordsId(s: System, step: Step): Option<string> {
    match MarkerWrite(s, step)
    case Some((id, Full)) => Some(id)
    case _ => None
  }

  lemma MarkerWriteIsFresh(s: System, step: Step)
    requires Enabled(s, step)
    ensures match MarkerWrite(s, step)
            case Some((id, _)) => IsWord(id) && !Finalized(s.node.files, id)
            case None => true
  {
  }

  lemma StepHistory(s: System, step: Step)
    requires Enabled(s, step)
    ensures match RecordsId(s, step)
            case Some(id) =>
              && IsWord(id) && id !in HistoryOf(s.node.files)
              && HistoryOf(Apply(s, step).node.files) == Recorded(HistoryOf(s.node.files), id)
            case None => HistoryOf(Apply(s, step).node.files) == HistoryOf(s.node.files)
  {
    MarkerWriteIsFresh(s, step);
    if RecordsId(s, step).Some? {
      WriteReadsBackIff(s.node.files, RecordsId(s, step).value);
    }
  }

  lemma StepMarker(s: System, step: Step)
    requires Enabled(s, step)
    ensures match MarkerWrite(s, step)
            case Some((id, extent)) =>
              MarkerOf(Apply(s, step).node.files)
                == if extent.Nothing? then MarkerOf(s.node.files) else if extent.Truncated? then "" else id
            case None => MarkerOf(Apply(s, step).node.files) == MarkerOf(s.node.files)
  {
    MarkerWriteIsFresh(s, step);
    if MarkerWrite(s, step).Some? {
      TrimEndsOfWord(MarkerWrite(s, step).value.0);
    }
  }

  lemma WordIsTrimmed(s: System, id: string)
    requires Traced(s, id)
    ensures TrimSpace(id) == id
  {
  }

  lemma RecordedMembers(ids: seq<string>, id: string)
    ensures forall x | x in Recorded(ids, id) :: x == id || x in ids
  {
    assert forall x | x in ids + [id] :: x == id || x in ids;
  }

  lemma StepKeepsInv(s: System, step: Step)
    requires Inv(s) && Enabled(s, step)
    ensures Inv(Apply(s, step))
  {
    StepHistory(s, step);
    StepMarker(s, step);
    WordIsTrimmed(s, Persisted(s.node));
    if RecordsId(s, step).Some? {
      RecordedIsWindow(HistoryOf(s.node.files), RecordsId(s, step).value);
      RecordedMembers(HistoryOf(s.node.files), RecordsId(s, step).value);
    }
  }

  lemma {:induction false} RunKeepsInv(systems: seq<System>, steps: seq<Step>, i: nat)
    requires IsRun(systems, steps) && Init(systems[0]) && i < |systems|
    ensures Inv(systems[i])
  {
    if i > 0 {
      RunKeepsInv(systems, steps, i - 1);
      StepKeepsInv(systems[i - 1], steps[i - 1]);
    }
  }

  /** Over any history of runs: a token counts as applied only if its marker was once written on this
      node, or this very run found a node that was never reconciled and has no CA. */
  lemma AppliedOnlyWhenWritten(systems: seq<System>, steps: seq<Step>, i: nat, token: string)
    requires IsRun(systems, steps) && Init(systems[0]) && i < |systems| && token != ""
    ensures OperationOf(token, AppliedId(systems[i].node, token)).Create? ==>
      token in systems[i].written || IsNewNode(systems[i].node)
  {
    RunKeepsInv(systems, steps, i);
  }

  /** The converse, in every state of every run: a token counts as applied exactly when there is none, it
      is persisted, in the marker or in the history here, or the node is a new one. */
  lemma AppliedIff(systems: seq<System>, steps: seq<Step>, i: nat, token: string)
    requires IsRun(systems, steps) && Init(systems[0]) && i < |systems|
    ensures var n := systems[i].node;
            OperationOf(token, AppliedId(n, token)).Create?
            <==> token == "" || n.state == Some(token)
                 || TrimSpace(n.files.marker) == token || token in Fields(n.files.history)
                 || (n.state.None? && !n.hasCA)
  {
    CreateIff(systems[i].node, token);
  }

  /** A successful run persists the marker as it stands, and what was persisted before only when there
      is no marker. */
  lemma StateFollowsMarker(systems: seq<System>, steps: seq<Step>, i: nat)
    requires IsRun(systems, steps) && Init(systems[0]) && i < |steps| && steps[i].Persist?
    ensures var n, n' := systems[i].node, systems[i + 1].node;
            n'.state == Some(if TrimSpace(n.files.marker) != "" then TrimSpace(n.files.marker)
                             else if n.state.Some? then n.state.value else "")
  {
    RunKeepsInv(systems, steps, i);
    WordIsTrimmed(systems[i], Persisted(systems[i].node));
  }

  /** The persisted LastCARotationID is always empty or the id of a written marker. */
  lemma PersistedIsWritten(systems: seq<System>, steps: seq<Step>, i: nat)
    requires IsRun(systems, steps) && Init(systems[0]) && i < |systems|
    ensures Persisted(systems[i].node) == "" || Persisted(systems[i].node) in systems[i].written
  {
    RunKeepsInv(systems, steps, i);
  }

  // ---------------------------------------------------------------- completed stays completed

  /** How many steps record a new id. */
  function RecordingSteps(systems: seq<System>, steps: seq<Step>): nat
    requires |systems| == |steps| + 1
  {
    if |steps| == 0 then 0
    else
      var n := |steps| - 1;
      RecordingSteps(systems[..n + 1], steps[..n]) + (if RecordsId(systems[n], steps[n]).Some? then 1 else 0)
  }

  lemma {:induction false} EntryAges(systems: seq<System>, steps: seq<Step>, id: string)
    requires IsRun(systems, steps) && IsWindow(HistoryOf(systems[0].node.files))
    requires AtDistance(HistoryOf(systems[0].node.files), id, 0)
    ensures IsWindow(HistoryOf(systems[|steps|].node.files))
    ensures RecordingSteps(systems, steps) < FINALIZED_KEEP ==>
      AtDistance(HistoryOf(systems[|steps|].node.files), id, RecordingSteps(systems, steps))
  {
    var n := |steps| - 1;
    if n >= 0 {
      EntryAges(systems[..n + 1], steps[..n], id);
      StepHistory(systems[n], steps[n]);
      var before := HistoryOf(systems[n].node.files);
      if RecordsId(systems[n], steps[n]).Some? {
        RecordedIsWindow(before, RecordsId(systems[n], steps[n]).value);
      }
    }
  }

  /** Once the marker of a rotation has been written to the end, every later run given that token is
      ordinary convergence until 64 further ids have been recorded, whatever happens in between. */
  lemma FinalizedStaysApplied(systems: seq<System>, steps: seq<Step>, id: string)
    requires IsRun(systems, steps) && |steps| > 0 && IsWindow(HistoryOf(systems[0].node.files))
    requires MarkerWrite(systems[0], steps[0]) == Some((id, Full))
    requires RecordingSteps(systems[1..], steps[1..]) < 64
    ensures OperationOf(id, AppliedId(systems[|steps|].node, id)).Create?
  {
    var rest, later := systems[1..], steps[1..];
    StepHistory(systems[0], steps[0]);
    RecordedIsWindow(HistoryOf(systems[0].node.files), id);
    assert AtDistance(HistoryOf(rest[0].node.files), id, 0);
    EntryAges(rest, later, id);
    assert rest[|later|] == systems[|steps|];
    assert id in HistoryOf(systems[|steps|].node.files);
  }

  /** A new node that was given a token stays on ordinary convergence for it, with its CA installed and
      its first run failed before any state was saved, until 64 further ids were recorded. */
  lemma NewNodeStaysCreate(systems: seq<System>, steps: seq<Step>, token: string)
    requires IsRun(systems, steps) && |steps| > 0 && IsWindow(HistoryOf(systems[0].node.files))
    requires systems[0].node.state.None? && !systems[0].node.hasCA
    requires token != "" && TrimSpace(systems[0].node.files.marker) != token
    requires token !in Fields(systems[0].node.files.history)
    requires steps[0] == Begin(token, false, Full)
    requires RecordingSteps(systems[1..], steps[1..]) < 64
    ensures OperationOf(token, AppliedId(systems[|steps|].node, token)).Create?
  {
    FinalizedStaysApplied(systems, steps, token);
  }
}
