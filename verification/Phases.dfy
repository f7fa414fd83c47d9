/** The rotation phases and their order, and the "<phase>@<rotationId>" text in which a
    node reports the phase it has completed. */
module Phases {
  import opened Text

  /** A phase is a string, so that values read back from the cluster may be unknown ones. */
  type Phase = string

  const PREPARE: Phase := "prepare"
  const CUTOVER: Phase := "cutover"
  const FINALIZE: Phase := "finalize"
  const DONE: Phase := "done"

  const ORDERED: seq<Phase> := [PREPARE, CUTOVER, FINALIZE, DONE]

  /** Position in the protocol order, -1 for the empty or an unknown phase. */
  function Index(p: Phase): (i: int)
    ensures -1 <= i < |ORDERED|
    ensures i >= 0 <==> p in ORDERED
    ensures i >= 0 ==> ORDERED[i] == p
  {
    if p == PREPARE then 0
    else if p == CUTOVER then 1
    else if p == FINALIZE then 2
    else if p == DONE then 3
    else -1
  }

  predicate AtLeast(p: Phase, other: Phase) {
    Index(p) >= Index(other)
  }

  predicate Valid(p: Phase) {
    Index(p) >= 0
  }

  function Next(p: Phase): Phase {
    var i := Index(p);
    if i < 0 then PREPARE
    else if i + 1 >= |ORDERED| then DONE
    else ORDERED[i + 1]
  }

  /** Next climbs the order one position at a time and rests at the top. */
  lemma NextClimbs(p: Phase)
    ensures Valid(Next(p))
    ensures Index(Next(p)) == if Index(p) == 3 then 3 else Index(p) + 1
    ensures Next(p) == p <==> p == DONE
  {
  }

  // ---------------------------------------------------------------- status annotation

  const AT: char := '@'

  /** The annotation value written by ReportStatus. */
  function StatusText(phase: Phase, rotationId: string): string {
    phase + [AT] + rotationId
  }

  /** parseNodeStatus: the reported phase, or nothing when the value is of another rotation. */
  function ParseNodeStatus(value: string, rotationId: string): Option<Phase> {
    var at := LastIndex(value, AT);
    if at < 0 then None
    else if value[at + 1..] != rotationId then None
    else Some(value[..at])
  }

  /** The phase a barrier sees in an annotation; the empty phase when there is none. */
  function ReachedPhase(value: string, rotationId: string): Phase {
    match ParseNodeStatus(value, rotationId)
    case Some(phase) => phase
    case None => ""
  }

  /** A report is read back exactly when the rotation id has no '@'; otherwise it is lost. */
  lemma StatusRoundTripIff(phase: Phase, rotationId: string)
    ensures ParseNodeStatus(StatusText(phase, rotationId), rotationId) == Some(phase)
       <==> '@' !in rotationId
    ensures StatusText(phase, rotationId) == phase + "@" + rotationId
    ensures '@' in rotationId ==> ParseNodeStatus(StatusText(phase, rotationId), rotationId) == None
  {
    var value := StatusText(phase, rotationId);
    if AT !in rotationId {
      LastIndexAt(phase, rotationId, AT);
      assert value[|phase| + 1..] == rotationId && value[..|phase|] == phase;
    } else {
      var k :| 0 <= k < |rotationId| && rotationId[k] == AT;
      assert value[|phase| + 1 + k] == AT;
      assert |value[LastIndex(value, AT) + 1..]| < |rotationId|;
    }
  }

  /** Whatever rotation reads a report, a phase it sees there is the one that was reported,
      and for that very rotation. */
  lemma StatusNeverMisread(phase: Phase, rotationId: string, reader: string, read: Phase)
    requires AT !in phase && AT !in read
    requires ParseNodeStatus(StatusText(phase, rotationId), reader) == Some(read)
    ensures read == phase && reader == rotationId
  {
    var value := StatusText(phase, rotationId);
    assert value == read + [AT] + reader;
    FirstIndexAt(phase, rotationId, AT);
    FirstIndexAt(read, reader, AT);
    assert phase == value[..|phase|] && read == value[..|read|];
    assert rotationId == value[|phase| + 1..] && reader == value[|read| + 1..];
  }
}
