/** The finalize marker and the bounded history of finalized rotations. */
module RotationHistory {
  import opened Text

  const FINALIZED_KEEP: nat := 64

  /** The text of the two files; a missing file reads like an empty one. */
  datatype Files = Files(marker: string, history: string)

  /** ReadMarker. */
  function MarkerOf(f: Files): string {
    TrimSpace(f.marker)
  }

  /** readFinalized: oldest first. */
  function HistoryOf(f: Files): seq<string> {
    Fields(f.history)
  }

  function LastN<T>(s: seq<T>, n: nat): seq<T> {
    if |s| > n then s[|s| - n..] else s
  }

  /** The list recordFinalized leaves. */
  function Recorded(ids: seq<string>, id: string): seq<string> {
    if id in ids then ids else LastN(ids + [id], FINALIZED_KEEP)
  }

  predicate Finalized(f: Files, id: string) {
    id != "" && (MarkerOf(f) == id || id in HistoryOf(f))
  }

  /** How far a write of marker and history gets: os.WriteFile truncates the marker before it writes
      it, and the history is replaced only afterwards. */
  datatype Extent = Nothing | Truncated | MarkerOnly | Full

  function AfterWrite(f: Files, id: string, extent: Extent): Files {
    match extent
    case Nothing => f
    case Truncated => f.(marker := "")
    case MarkerOnly => f.(marker := id + "\n")
    case Full =>
      Files(id + "\n", if id in HistoryOf(f) then f.history else Join(Recorded(HistoryOf(f), id), "\n") + "\n")
  }

  /** The files as the process changes them. */
  class MarkerFiles {
    var files: Files

    constructor (files: Files)
      ensures this.files == files
    {
      this.files := files;
    }

    method RecordFinalized(id: string)
      modifies this
      ensures files == old(files).(history :=
        if id in HistoryOf(old(files)) then old(files).history
        else Join(Recorded(HistoryOf(old(files)), id), "\n") + "\n")
    {
      var ids := HistoryOf(files);
      if id in ids {
        return;
      }
      ids := ids + [id];
      if |ids| > FINALIZED_KEEP {
        ids := ids[|ids| - FINALIZED_KEEP..];
      }
      files := files.(history := Join(ids, "\n") + "\n");
    }

    /** WriteMarker, interrupted after `extent`. */
    method WriteMarker(id: string, extent: Extent)
      modifies this
      ensures files == AfterWrite(old(files), id, extent)
    {
      if extent.Nothing? {
        return;
      }
      files := files.(marker := "");
      if extent.Truncated? {
        return;
      }
      files := files.(marker := id + "\n");
      if extent.MarkerOnly? {
        return;
      }
      RecordFinalized(id);
    }
  }

  // ---------------------------------------------------------------- reading back

  lemma TrimEndsOfWord(id: string)
    requires IsWord(id)
    ensures TrimSpace(id + "\n") == id
  {
    var s := id + "\n";
    assert !IsSpace(s[0]) && TrimSpaceLeft(s) == s;
    assert s[..|s| - 1] == id && IsSpace(s[|s| - 1]);
    assert TrimSpaceRight(id) == id;
  }

  lemma RecordedWords(ids: seq<string>, id: string)
    requires AllWords(ids) && IsWord(id)
    ensures AllWords(Recorded(ids, id))
  {
  }

  /** A completed write is read back as intended exactly when the id is free of white space. */
  lemma WriteReadsBackIff(f: Files, id: string)
    requires id !in HistoryOf(f)
    ensures HistoryOf(AfterWrite(f, id, Full)) == Recorded(HistoryOf(f), id) <==> IsWord(id)
    ensures IsWord(id) ==> MarkerOf(AfterWrite(f, id, Full)) == id
  {
    var ids := Recorded(HistoryOf(f), id);
    FieldsAreWords(f.history);
    if IsWord(id) {
      TrimEndsOfWord(id);
      RecordedWords(HistoryOf(f), id);
      assert Fields("\n"[1..]) == [];
      FieldsOfJoin(ids, '\n', "\n");
    } else {
      FieldsAreWords(Join(ids, "\n") + "\n");
      assert ids[|ids| - 1] == id;
    }
  }

  /** What goes wrong otherwise: finalizing an id of two words makes each of them count as finalized. */
  lemma SpacedIdPollutesHistory(first: string, second: string)
    requires IsWord(first) && IsWord(second)
    ensures HistoryOf(AfterWrite(Files("", ""), first + " " + second, Full)) == [first, second]
    ensures Finalized(AfterWrite(Files("", ""), first + " " + second, Full), first)
  {
    var id := first + " " + second;
    assert Join(Recorded([], id), "\n") == id;
    FieldsOfJoin([first, second], ' ', "\n");
    assert Fields("\n"[1..]) == [];
    assert Join([first, second], " ") == id;
  }

  // ---------------------------------------------------------------- the window

  predicate Distinct(s: seq<string>) {
    forall i, j :: 0 <= i < j < |s| ==> s[i] != s[j]
  }

  /** Duplicate-free and at most 64 long, and the newest entry is the last. */
  predicate IsWindow(ids: seq<string>) {
    Distinct(ids) && |ids| <= FINALIZED_KEEP
  }

  function RecordAll(ids: seq<string>, writes: seq<string>): seq<string> {
    if |writes| == 0 then ids
    else Recorded(RecordAll(ids, writes[..|writes| - 1]), writes[|writes| - 1])
  }

  /** Every id in the order in which writes first recorded it (again, if it had been evicted). */
  function RecordingLog(writes: seq<string>): seq<string> {
    if |writes| == 0 then []
    else
      var log, id := RecordingLog(writes[..|writes| - 1]), writes[|writes| - 1];
      if id in LastN(log, FINALIZED_KEEP) then log else log + [id]
  }

  lemma RecordedIsWindow(ids: seq<string>, id: string)
    requires IsWindow(ids)
    ensures IsWindow(Recorded(ids, id)) && id in Recorded(ids, id)
  {
    if id !in ids {
      assert Recorded(ids, id)[|Recorded(ids, id)| - 1] == id;
    }
  }

  /** Over any sequence of writes the history is the last 64 recordings, without duplicates. */
  lemma {:induction false} HistoryIsLastRecordings(writes: seq<string>)
    ensures RecordAll([], writes) == LastN(RecordingLog(writes), 64)
    ensures IsWindow(RecordAll([], writes))
  {
    if |writes| > 0 {
      var rest := writes[..|writes| - 1];
      HistoryIsLastRecordings(rest);
      RecordedIsWindow(RecordAll([], rest), writes[|writes| - 1]);
    }
  }

  /** How many of the writes add an entry. */
  function NewRecordings(ids: seq<string>, writes: seq<string>): nat {
    if |writes| == 0 then 0
    else
      var rest := writes[..|writes| - 1];
      NewRecordings(ids, rest) + (if writes[|writes| - 1] in RecordAll(ids, rest) then 0 else 1)
  }

  /** Where an entry has moved to once `n` newer ones have been added. */
  predicate AtDistance(ids: seq<string>, id: string, fromEnd: nat) {
    fromEnd < |ids| && ids[|ids| - 1 - fromEnd] == id
  }

  lemma {:induction false} EntryMoves(ids: seq<string>, writes: seq<string>, id: string, fromEnd: nat)
    requires IsWindow(ids) && AtDistance(ids, id, fromEnd)
    ensures IsWindow(RecordAll(ids, writes))
    ensures NewRecordings(ids, writes) + fromEnd < 64 ==>
      AtDistance(RecordAll(ids, writes), id, NewRecordings(ids, writes) + fromEnd)
    ensures NewRecordings(ids, writes) + fromEnd >= 64 && id !in writes ==> id !in RecordAll(ids, writes)
  {
    if |writes| > 0 {
      var rest, w := writes[..|writes| - 1], writes[|writes| - 1];
      EntryMoves(ids, rest, id, fromEnd);
      RecordedIsWindow(RecordAll(ids, rest), w);
    }
  }

  /** An entry `fromEnd` places before the newest survives exactly as long as fewer than
      64 - fromEnd new ids are recorded after it. */
  lemma SurvivesIff(ids: seq<string>, writes: seq<string>, id: string, fromEnd: nat)
    requires IsWindow(ids) && AtDistance(ids, id, fromEnd) && id !in writes
    ensures id in RecordAll(ids, writes) <==> NewRecordings(ids, writes) + fromEnd < 64
  {
    EntryMoves(ids, writes, id, fromEnd);
  }

  /** A write that records its id puts it at the end, so it survives the next 63 new ids and not the
      64th. */
  lemma FreshWriteSurvivesIff(ids: seq<string>, id: string, writes: seq<string>)
    requires IsWindow(ids) && id !in ids && id !in writes
    ensures var now := Recorded(ids, id);
            id in RecordAll(now, writes) <==> NewRecordings(now, writes) < 64
  {
    RecordedIsWindow(ids, id);
    SurvivesIff(Recorded(ids, id), writes, id, 0);
  }

  /** An interrupted write is only as good as the marker: when the next rotation finalizes, the id is
      still known exactly if its own write got as far as the history. */
  lemma InterruptedWriteForgottenIff(f: Files, id: string, other: string, extent: Extent)
    requires IsWord(id) && IsWord(other) && id != other && IsWindow(HistoryOf(f))
    requires id !in HistoryOf(f) && other !in HistoryOf(f)
    ensures Finalized(AfterWrite(AfterWrite(f, id, extent), other, Full), id) <==> extent == Full
  {
    var g := AfterWrite(f, id, extent);
    var h := AfterWrite(g, other, Full);
    WriteReadsBackIff(f, id);
    RecordedIsWindow(HistoryOf(f), id);
    assert HistoryOf(g) == if extent == Full then Recorded(HistoryOf(f), id) else HistoryOf(f);
    WriteReadsBackIff(g, other);
    assert MarkerOf(h) == other && HistoryOf(h) == Recorded(HistoryOf(g), other);
    if extent == Full {
      SurvivesIff(HistoryOf(g), [other], id, 0);
      assert [other][..0] == [];
      assert RecordAll(HistoryOf(g), [other]) == Recorded(HistoryOf(g), other);
    } else {
      assert forall x | x in Recorded(HistoryOf(g), other) :: x == other || x in HistoryOf(g);
    }
  }

  /** Completed writes of further ids, one after the other. */
  function AfterWrites(f: Files, ids: seq<string>): Files {
    if |ids| == 0 then f else AfterWrite(AfterWrites(f, ids[..|ids| - 1]), ids[|ids| - 1], Full)
  }

  lemma {:induction false} WritesReadBack(f: Files, ids: seq<string>)
    requires AllWords(ids)
    ensures HistoryOf(AfterWrites(f, ids)) == RecordAll(HistoryOf(f), ids)
    ensures ids != [] ==> MarkerOf(AfterWrites(f, ids)) == ids[|ids| - 1]
  {
    if |ids| > 0 {
      var front, last := ids[..|ids| - 1], ids[|ids| - 1];
      var g := AfterWrites(f, front);
      WritesReadBack(f, front);
      TrimEndsOfWord(last);
      if last !in HistoryOf(g) {
        WriteReadsBackIff(g, last);
      }
    }
  }

  /** Writing the marker of an id that is already recorded, `fromEnd` places before the newest, does
      not renew it: after later writes it is still known exactly while fewer than 64 - fromEnd of
      them were new. */
  lemma RewrittenIdSurvivesIff(f: Files, id: string, fromEnd: nat, later: seq<string>)
    requires IsWindow(HistoryOf(f)) && AtDistance(HistoryOf(f), id, fromEnd)
    requires IsWord(id) && AllWords(later) && id !in later
    ensures Finalized(AfterWrites(AfterWrite(f, id, Full), later), id)
       <==> NewRecordings(HistoryOf(f), later) + fromEnd < 64
  {
    var g := AfterWrite(f, id, Full);
    assert id in HistoryOf(f) && HistoryOf(g) == HistoryOf(f);
    TrimEndsOfWord(id);
    WritesReadBack(g, later);
    SurvivesIff(HistoryOf(f), later, id, fromEnd);
    if later != [] {
      assert later[|later| - 1] in later;
    }
  }

  /** An id recorded by its write stays known through the next 63 new ids. */
  lemma RecordedIdSurvivesIff(f: Files, id: string, later: seq<string>)
    requires IsWindow(HistoryOf(f)) && id !in HistoryOf(f)
    requires IsWord(id) && AllWords(later) && id !in later
    ensures Finalized(AfterWrites(AfterWrite(f, id, Full), later), id)
       <==> NewRecordings(HistoryOf(AfterWrite(f, id, Full)), later) < 64
  {
    var g := AfterWrite(f, id, Full);
    WriteReadsBackIff(f, id);
    RecordedIsWindow(HistoryOf(f), id);
    TrimEndsOfWord(id);
    WritesReadBack(g, later);
    SurvivesIff(HistoryOf(g), later, id, 0);
    if later != [] {
      assert later[|later| - 1] in later;
    }
  }

  function Tally(n: nat): string {
    seq(n + 1, _ => 'x')
  }

  /** For example, the oldest of 64 entries, written again, is forgotten as soon as one other rotation
      finalizes. */
  lemma RewrittenIdIsForgotten() returns (f: Files, id: string, other: string)
    ensures Finalized(f, id) && MarkerOf(f) != id
    ensures Finalized(AfterWrite(f, id, Full), id)
    ensures !Finalized(AfterWrite(AfterWrite(f, id, Full), other, Full), id)
  {
    var ids := seq(64, i requires 0 <= i < 64 => Tally(i));
    id, other := Tally(0), Tally(64);
    f := Files("", Join(ids, "\n") + "\n");
    assert AllWords(ids);
    assert Fields("\n"[1..]) == [];
    FieldsOfJoin(ids, '\n', "\n");
    assert HistoryOf(f) == ids && ids[0] == id;
    assert forall i, j :: 0 <= i < j < 64 ==> |ids[i]| != |ids[j]|;
    var g := AfterWrite(f, id, Full);
    assert HistoryOf(g) == ids;
    assert forall i :: 0 <= i < 64 ==> |ids[i]| != |other|;
    assert other !in ids && IsWord(other) && IsWord(id);
    WriteReadsBackIff(g, other);
    TrimEndsOfWord(id);
    var h := AfterWrite(g, other, Full);
    assert HistoryOf(h) == ids[1..] + [other];
    assert |id| != |other|;
    assert forall i :: 0 <= i < 63 ==> |ids[1..][i]| != |id|;
    assert MarkerOf(h) == other;
  }
}
