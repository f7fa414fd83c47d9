/** The wait loop at a barrier: when it opens, and which failures it may report. */
module BarrierWait {
  import opened Text
  import opened Phases
  import opened SortedStrings

  /** The result of AllNodesReached in one poll. */
  datatype Check = ListFailed | AllReached | StillPending(names: seq<string>)

  /** The progress a poll reads: desired phase and last heartbeat (None: never recorded). */
  datatype Progress = Progress(desired: Phase, beat: Option<int>)

  /** One pass of the loop: the clock, what was read (None: read error), what the check said, whether
      the advance it allows succeeded, and whether the context ended during the pause. */
  datatype Poll = Poll(now: int, read: Option<Progress>, check: Check, advanced: bool, cancelled: bool)

  datatype Options = Options(deadline: int, stallTimeout: int, abandonTimeout: int)

  datatype Outcome = Opened | Abandoned | Stalled(names: seq<string>) | TimedOut | Cancelled | Unfinished

  // ---------------------------------------------------------------- pending key

  const COMMA: char := ','

  /** pendingKey: the pending names in order-independent form. */
  function PendingKey(names: seq<string>): string {
    Join(Sort(names), [COMMA])
  }

  lemma SortKeepsClean(names: seq<string>, c: char)
    requires NoneContains(names, c)
    ensures NoneContains(Sort(names), c) && |Sort(names)| == |names|
  {
    SortSorts(names);
    assert |multiset(Sort(names))| == |multiset(names)|;
    forall i | 0 <= i < |Sort(names)| ensures c !in Sort(names)[i] {
      assert Sort(names)[i] in multiset(names);
    }
  }

  /** Two non-empty pending lists have the same key exactly when they are rearrangements of each
      other, as long as no entry holds a comma. */
  lemma PendingKeyIff(a: seq<string>, b: seq<string>)
    requires a != [] && b != [] && NoneContains(a, COMMA) && NoneContains(b, COMMA)
    ensures PendingKey(a) == PendingKey(b) <==> multiset(a) == multiset(b)
  {
    SortEqualIff(a, b);
    SortKeepsClean(a, COMMA);
    SortKeepsClean(b, COMMA);
    SplitOfJoin(Sort(a), COMMA);
    SplitOfJoin(Sort(b), COMMA);
  }

  // ---------------------------------------------------------------- stall tracking

  predicate OpenAt(p: Poll, next: Phase) {
    p.read.Some? && AtLeast(p.read.value.desired, next)
  }

  /** The poll looks at the pending set: only a master that could read both objects does. */
  predicate Looks(p: Poll, isMaster: bool) {
    isMaster && p.read.Some? && p.check.StillPending?
  }

  datatype Tracker = Tracker(key: string, since: int, names: seq<string>)

  /** What the stall clock shows after these polls; it starts from a key no real set has. */
  function Track(start: int, polls: seq<Poll>, isMaster: bool): Tracker {
    if |polls| == 0 then Tracker("\0", start, [])
    else
      var before, p := Track(start, polls[..|polls| - 1], isMaster), polls[|polls| - 1];
      if Looks(p, isMaster) && PendingKey(p.check.names) != before.key
      then Tracker(PendingKey(p.check.names), p.now, p.check.names)
      else before
  }

  predicate StallsAt(start: int, polls: seq<Poll>, i: nat, isMaster: bool, opts: Options)
    requires i < |polls|
  {
    && Looks(polls[i], isMaster)
    && opts.stallTimeout > 0
    && polls[i].now - Track(start, polls[..i + 1], isMaster).since >= opts.stallTimeout
  }

  predicate AbandonedAt(p: Poll, isMaster: bool, opts: Options) {
    p.read.Some? && !isMaster && p.read.value.beat.Some? && p.now - p.read.value.beat.value >= opts.abandonTimeout
  }

  /** The poll ends with a successful advance, which polls again at once. */
  predicate AdvancesAt(p: Poll, isMaster: bool) {
    isMaster && p.read.Some? && p.check.AllReached? && p.advanced
  }

  // ---------------------------------------------------------------- the loop

  /** Barrier on a finite sequence of polls; `Unfinished` when they do not decide it. */
  method Barrier(completed: Phase, isMaster: bool, start: int, opts: Options, polls: seq<Poll>)
    returns (out: Outcome, used: nat)
    ensures used <= |polls|
    ensures Next(completed) == DONE ==> out == Opened && used == 0
    ensures Next(completed) != DONE && out != Unfinished ==> used > 0
    // no earlier poll saw the barrier open, and no failure hides an open one
    ensures Next(completed) != DONE ==> forall j :: 0 <= j < used ==>
      (polls[j].read.Some? && Index(polls[j].read.value.desired) >= Index(Next(completed))
       <==> j == used - 1 && out == Opened)
    // the failures, each exactly under its own condition
    ensures used > 0 && !out.Opened? ==>
      var last := polls[used - 1];
      && (out == Abandoned <==>
          && !isMaster && last.read.Some? && last.read.value.beat.Some?
          && last.now - last.read.value.beat.value >= opts.abandonTimeout)
      && (out.Stalled? <==> StallsAt(start, polls, used - 1, isMaster, opts))
      && (out == TimedOut ==> last.now > opts.deadline)
      && (out == Cancelled ==> last.cancelled && last.now <= opts.deadline)
    ensures out.Stalled? ==> out.names == Track(start, polls[..used], isMaster).names
    // it goes on only past polls that decide nothing
    ensures forall j :: 0 <= j < used - 1 ==>
      && !AbandonedAt(polls[j], isMaster, opts)
      && !StallsAt(start, polls, j, isMaster, opts)
      && (|| (isMaster && polls[j].read.Some? && polls[j].check.AllReached? && polls[j].advanced)
          || (polls[j].now <= opts.deadline && !polls[j].cancelled))
    ensures out == Unfinished ==> used == |polls|
  {
    var next := Next(completed);
    used := 0;
    if next == DONE {
      return Opened, 0;
    }
    var lastKey, lastProgress := "\0", start;
    var lastList: seq<string> := [];
    while used < |polls|
      invariant 0 <= used <= |polls|
      invariant Track(start, polls[..used], isMaster) == Tracker(lastKey, lastProgress, lastList)
      invariant forall j :: 0 <= j < used ==>
        && !OpenAt(polls[j], next)
        && !AbandonedAt(polls[j], isMaster, opts)
        && !StallsAt(start, polls, j, isMaster, opts)
        && (AdvancesAt(polls[j], isMaster) || (polls[j].now <= opts.deadline && !polls[j].cancelled))
    {
      var p := polls[used];
      assert polls[..used + 1][..used] == polls[..used];
      used := used + 1;
      if OpenAt(p, next) {
        return Opened, used;
      }
      if AbandonedAt(p, isMaster, opts) {
        return Abandoned, used;
      }
      if p.read.Some? && isMaster {
        match p.check {
          case AllReached =>
            if p.advanced {
              continue;
            }
          case StillPending(names) =>
            var key := PendingKey(names);
            if key != lastKey {
              lastKey, lastProgress, lastList := key, p.now, names;
            }
            if opts.stallTimeout > 0 && p.now - lastProgress >= opts.stallTimeout {
              return Stalled(lastList), used;
            }
          case ListFailed =>
        }
      }
      if p.now > opts.deadline {
        return TimedOut, used;
      }
      if p.cancelled {
        return Cancelled, used;
      }
    }
    return Unfinished, used;
  }

  /** Where the current stretch of an unchanged pending set began. */
  lemma {:induction false} TrackStretch(start: int, polls: seq<Poll>, isMaster: bool) returns (j: nat)
    requires exists i :: 0 <= i < |polls| && Looks(polls[i], isMaster)
    requires forall i :: 0 <= i < |polls| && Looks(polls[i], isMaster) ==> PendingKey(polls[i].check.names) != "\0"
    ensures j < |polls| && Looks(polls[j], isMaster)
    ensures Track(start, polls, isMaster)
         == Tracker(PendingKey(polls[j].check.names), polls[j].now, polls[j].check.names)
    ensures forall i :: j <= i < |polls| && Looks(polls[i], isMaster) ==>
      PendingKey(polls[i].check.names) == PendingKey(polls[j].check.names)
  {
    var n := |polls| - 1;
    var before := Track(start, polls[..n], isMaster);
    if Looks(polls[n], isMaster) && PendingKey(polls[n].check.names) != before.key {
      j := n;
    } else {
      if forall i :: 0 <= i < n ==> !Looks(polls[i], isMaster) {
        TrackIdle(start, polls[..n], isMaster);
        assert false;
      }
      var i :| 0 <= i < n && Looks(polls[i], isMaster);
      assert polls[..n][i] == polls[i];
      j := TrackStretch(start, polls[..n], isMaster);
    }
  }

  lemma {:induction false} TrackIdle(start: int, polls: seq<Poll>, isMaster: bool)
    requires forall i :: 0 <= i < |polls| ==> !Looks(polls[i], isMaster)
    ensures Track(start, polls, isMaster) == Tracker("\0", start, [])
  {
    if |polls| > 0 {
      TrackIdle(start, polls[..|polls| - 1], isMaster);
    }
  }

  /** A stall is reported only when every look at the pending set over at least the stall timeout
      found the same nodes pending. Names come from the API, so none is the sentinel or has a comma. */
  lemma StallMeansNoChange(start: int, polls: seq<Poll>, i: nat, isMaster: bool, opts: Options) returns (j: nat)
    requires i < |polls| && StallsAt(start, polls, i, isMaster, opts)
    requires forall k :: 0 <= k < |polls| && Looks(polls[k], isMaster) ==>
      polls[k].check.names != [] && NoneContains(polls[k].check.names, COMMA)
      && PendingKey(polls[k].check.names) != "\0"
    ensures j <= i && Looks(polls[j], isMaster) && polls[i].now - polls[j].now >= opts.stallTimeout
    ensures forall k :: j <= k <= i && Looks(polls[k], isMaster) ==>
      multiset(polls[k].check.names) == multiset(polls[j].check.names)
  {
    var upTo := polls[..i + 1];
    assert upTo[i] == polls[i];
    j := TrackStretch(start, upTo, isMaster);
    forall k | j <= k <= i && Looks(polls[k], isMaster)
      ensures multiset(polls[k].check.names) == multiset(polls[j].check.names)
    {
      assert upTo[k] == polls[k] && upTo[j] == polls[j];
      PendingKeyIff(polls[k].check.names, polls[j].check.names);
    }
  }

  /** The clock of every poll is read after the one before. */
  predicate IsMonotone(start: int, polls: seq<Poll>) {
    && (forall i :: 0 <= i < |polls| ==> start <= polls[i].now)
    && forall i, j :: 0 <= i <= j < |polls| ==> polls[i].now <= polls[j].now
  }

  lemma {:induction false} TrackNotAhead(start: int, polls: seq<Poll>, isMaster: bool)
    requires IsMonotone(start, polls) && polls != []
    ensures Track(start, polls, isMaster).since <= polls[|polls| - 1].now
  {
    var front := polls[..|polls| - 1];
    if front != [] {
      TrackNotAhead(start, front, isMaster);
      assert front[|front| - 1] == polls[|front| - 1];
    }
  }

  /** While every look finds the same set, the clock does not move. */
  lemma {:induction false} TrackUnchanged(start: int, polls: seq<Poll>, j: nat, isMaster: bool)
    requires IsMonotone(start, polls) && j < |polls| && Looks(polls[j], isMaster)
    requires forall k :: j <= k < |polls| && Looks(polls[k], isMaster) ==>
      PendingKey(polls[k].check.names) == PendingKey(polls[j].check.names)
    ensures Track(start, polls, isMaster).key == PendingKey(polls[j].check.names)
    ensures Track(start, polls, isMaster).since <= polls[j].now
  {
    var front := polls[..|polls| - 1];
    if j == |front| {
      TrackNotAhead(start, polls, isMaster);
    } else {
      assert front[j] == polls[j];
      TrackUnchanged(start, front, j, isMaster);
    }
  }

  /** With a clock that does not run backwards a stall is reported exactly when a master's looks at
      the pending set over at least the stall timeout all found the same nodes pending. */
  lemma StallIff(start: int, polls: seq<Poll>, i: nat, isMaster: bool, opts: Options)
    requires i < |polls| && IsMonotone(start, polls)
    requires forall k :: 0 <= k < |polls| && Looks(polls[k], isMaster) ==>
      polls[k].check.names != [] && NoneContains(polls[k].check.names, COMMA)
      && PendingKey(polls[k].check.names) != "\0"
    ensures StallsAt(start, polls, i, isMaster, opts)
       <==> isMaster && polls[i].read.Some? && polls[i].check.StillPending? && opts.stallTimeout > 0
            && exists j :: IsUnchanged(polls, j, i) && polls[i].now - polls[j].now >= opts.stallTimeout
  {
    if StallsAt(start, polls, i, isMaster, opts) {
      var j := StallMeansNoChange(start, polls, i, isMaster, opts);
      assert IsUnchanged(polls, j, i);
    }
    forall j | IsUnchanged(polls, j, i) && isMaster && polls[i].read.Some? && polls[i].check.StillPending?
      ensures Track(start, polls[..i + 1], isMaster).since <= polls[j].now
    {
      forall k | j <= k <= i && Looks(polls[k], isMaster)
        ensures PendingKey(polls[k].check.names) == PendingKey(polls[j].check.names)
      {
        PendingKeyIff(polls[k].check.names, polls[j].check.names);
      }
      TrackUnchanged(start, polls[..i + 1], j, isMaster);
    }
  }

  /** Both polls and every one between them that could read both objects found the same nodes pending. */
  predicate IsUnchanged(polls: seq<Poll>, j: int, i: nat) {
    && 0 <= j <= i < |polls| && polls[j].read.Some? && polls[j].check.StillPending?
    && forall k :: j <= k <= i && polls[k].read.Some? && polls[k].check.StillPending? ==>
      multiset(polls[k].check.names) == multiset(polls[j].check.names)
  }
}
