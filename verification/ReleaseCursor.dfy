/**
 Delivery of release milestones while a turn waits for a native release run. Each poll
 returns a snapshot of one epoch with the milestones recorded so far; a cursor remembers
 the epoch and the last sequence number delivered, and only that.
 */
module ReleaseCursor {

  import opened Common

  datatype Milestone = Milestone(sequence: nat, summary: string)

  datatype Snapshot = Snapshot(epoch: string, milestones: seq<Milestone>, recoverable: bool, detail: string)

  datatype Cursor = Cursor(epoch: string, sequence: nat)

  datatype Delivery = Delivery(cursor: Option<Cursor>, delivered: seq<Milestone>)

  /** Sequence number below which the milestones of an epoch count as delivered. */
  function Previous(cursor: Option<Cursor>, epoch: string): nat {
    if cursor.Some? && cursor.value.epoch == epoch then cursor.value.sequence else 0
  }

  /** The inner loop over the milestones of one snapshot. */
  function Deliver(cursor: Option<Cursor>, epoch: string, ms: seq<Milestone>): Delivery
    decreases |ms|
  {
    if ms == [] then Delivery(cursor, [])
    else if ms[0].sequence > Previous(cursor, epoch) then
      var rest := Deliver(Some(Cursor(epoch, ms[0].sequence)), epoch, ms[1..]);
      Delivery(rest.cursor, [ms[0]] + rest.delivered)
    else Deliver(cursor, epoch, ms[1..])
  }

  function CursorAt(snaps: seq<Snapshot>, i: nat): Option<Cursor>
    requires i <= |snaps|
  {
    if i == 0 then None
    else Deliver(CursorAt(snaps, i - 1), snaps[i - 1].epoch, snaps[i - 1].milestones).cursor
  }

  /** The milestones delivered for the i-th snapshot. */
  function FreshAt(snaps: seq<Snapshot>, i: nat): seq<Milestone>
    requires i < |snaps|
  {
    Deliver(CursorAt(snaps, i), snaps[i].epoch, snaps[i].milestones).delivered
  }

  // ------------------------------------------------------------------- any snapshots

  ghost predicate Ascending(ms: seq<Milestone>, above: nat) {
    && (forall q :: 0 <= q < |ms| ==> ms[q].sequence > above)
    && forall p, q :: 0 <= p < q < |ms| ==> ms[p].sequence < ms[q].sequence
  }

  lemma {:induction false} DeliverAscends(cursor: Option<Cursor>, epoch: string, ms: seq<Milestone>)
    ensures var r := Deliver(cursor, epoch, ms);
      && Ascending(r.delivered, Previous(cursor, epoch))
      && (if r.delivered == [] then r.cursor == cursor
          else r.cursor == Some(Cursor(epoch, r.delivered[|r.delivered| - 1].sequence)))
    decreases |ms|
  {
    if ms != [] {
      DeliverAscends(Some(Cursor(epoch, ms[0].sequence)), epoch, ms[1..]);
      DeliverAscends(cursor, epoch, ms[1..]);
    }
  }

  lemma {:induction false} PreviousGrows(snaps: seq<Snapshot>, epoch: string, i: nat, k: nat)
    requires i <= k <= |snaps| && forall j :: i <= j < k ==> snaps[j].epoch == epoch || snaps[j].milestones == []
    ensures Previous(CursorAt(snaps, i), epoch) <= Previous(CursorAt(snaps, k), epoch)
  {
    if i < k {
      PreviousGrows(snaps, epoch, i, k - 1);
      DeliverAscends(CursorAt(snaps, k - 1), snaps[k - 1].epoch, snaps[k - 1].milestones);
    }
  }

  /**
   Over any polls of one epoch, and however another epoch without milestones intervenes,
   deliveries strictly increase: no assumption on what the snapshots hold.
   */
  lemma OneEpochStrictlyIncreases(snaps: seq<Snapshot>, epoch: string, i: nat, p: nat, k: nat, q: nat)
    requires i < k < |snaps| && snaps[i].epoch == epoch && snaps[k].epoch == epoch
    requires forall j :: i <= j <= k ==> snaps[j].epoch == epoch || snaps[j].milestones == []
    requires p < |FreshAt(snaps, i)| && q < |FreshAt(snaps, k)|
    ensures FreshAt(snaps, i)[p].sequence < FreshAt(snaps, k)[q].sequence
  {
    DeliverAscends(CursorAt(snaps, i), epoch, snaps[i].milestones);
    DeliverAscends(CursorAt(snaps, k), epoch, snaps[k].milestones);
    PreviousGrows(snaps, epoch, i + 1, k);
  }

  // ------------------------------------------------------------------ sorted snapshots

  /** Every poll shows its milestones in order, numbered from at least one. */
  ghost predicate Sorted(snaps: seq<Snapshot>) {
    forall i :: 0 <= i < |snaps| ==> Ascending(snaps[i].milestones, 0)
  }

  function LastOf(ms: seq<Milestone>): nat {
    if ms == [] then 0 else ms[|ms| - 1].sequence
  }

  lemma {:induction false} DeliverMembers(cursor: Option<Cursor>, epoch: string, ms: seq<Milestone>)
    requires Ascending(ms, 0)
    ensures forall m :: m in Deliver(cursor, epoch, ms).delivered <==> m in ms && m.sequence > Previous(cursor, epoch)
    decreases |ms|
  {
    if ms != [] {
      assert forall m :: m in ms <==> m == ms[0] || m in ms[1..];
      if ms[0].sequence > Previous(cursor, epoch) {
        DeliverMembers(Some(Cursor(epoch, ms[0].sequence)), epoch, ms[1..]);
      } else {
        DeliverMembers(cursor, epoch, ms[1..]);
      }
    }
  }

  lemma {:induction false} DeliverCursor(cursor: Option<Cursor>, epoch: string, ms: seq<Milestone>)
    requires Ascending(ms, 0)
    ensures var next := Deliver(cursor, epoch, ms).cursor;
      if ms == [] then next == cursor
      else next == Some(Cursor(epoch, if LastOf(ms) > Previous(cursor, epoch) then LastOf(ms) else Previous(cursor, epoch)))
    decreases |ms|
  {
    if ms != [] {
      if ms[0].sequence > Previous(cursor, epoch) {
        DeliverCursor(Some(Cursor(epoch, ms[0].sequence)), epoch, ms[1..]);
      } else {
        DeliverCursor(cursor, epoch, ms[1..]);
      }
    }
  }

  /** Poll j showed milestones of an epoch, and between j and i no other epoch showed any. */
  ghost predicate ShownUpTo(snaps: seq<Snapshot>, epoch: string, j: nat, i: nat)
    requires i <= |snaps|
  {
    && j < i && snaps[j].epoch == epoch && snaps[j].milestones != []
    && forall q :: j < q < i ==> snaps[q].epoch == epoch || snaps[q].milestones == []
  }

  ghost predicate AtLeastShown(snaps: seq<Snapshot>, epoch: string, i: nat, h: nat)
    requires i <= |snaps|
  {
    forall j: nat :: ShownUpTo(snaps, epoch, j, i) ==> LastOf(snaps[j].milestones) <= h
  }

  ghost predicate WasShown(snaps: seq<Snapshot>, epoch: string, i: nat, h: nat)
    requires i <= |snaps|
  {
    exists j: nat :: ShownUpTo(snaps, epoch, j, i) && LastOf(snaps[j].milestones) == h
  }

  lemma ShownStep(snaps: seq<Snapshot>, epoch: string, j: nat, i: nat)
    requires j <= i < |snaps|
    ensures ShownUpTo(snaps, epoch, j, i + 1) <==>
              if j == i then snaps[i].epoch == epoch && snaps[i].milestones != []
              else ShownUpTo(snaps, epoch, j, i) && (snaps[i].epoch == epoch || snaps[i].milestones == [])
  {
  }

  function HighestAfter(s: Snapshot, epoch: string, h: nat): nat {
    if s.milestones == [] then h
    else if s.epoch != epoch then 0
    else if LastOf(s.milestones) > h then LastOf(s.milestones)
    else h
  }

  lemma PreviousStep(snaps: seq<Snapshot>, epoch: string, i: nat)
    requires Sorted(snaps) && 0 < i <= |snaps|
    ensures Previous(CursorAt(snaps, i), epoch)
      == HighestAfter(snaps[i - 1], epoch, Previous(CursorAt(snaps, i - 1), epoch))
  {
    DeliverCursor(CursorAt(snaps, i - 1), snaps[i - 1].epoch, snaps[i - 1].milestones);
  }

  lemma AtLeastShownStep(snaps: seq<Snapshot>, epoch: string, i: nat, h: nat)
    requires 0 < i <= |snaps| && AtLeastShown(snaps, epoch, i - 1, h)
    ensures AtLeastShown(snaps, epoch, i, HighestAfter(snaps[i - 1], epoch, h))
  {
    forall j: nat | ShownUpTo(snaps, epoch, j, i)
      ensures LastOf(snaps[j].milestones) <= HighestAfter(snaps[i - 1], epoch, h)
    {
      ShownStep(snaps, epoch, j, i - 1);
    }
  }

  lemma WasShownStep(snaps: seq<Snapshot>, epoch: string, i: nat, h: nat)
    requires 0 < i <= |snaps| && WasShown(snaps, epoch, i - 1, h)
    ensures var h' := HighestAfter(snaps[i - 1], epoch, h);
      h' > 0 ==> WasShown(snaps, epoch, i, h')
  {
    var h' := HighestAfter(snaps[i - 1], epoch, h);
    if h' > 0 {
      var j: nat := i - 1;
      if h' == h {
        j :| ShownUpTo(snaps, epoch, j, i - 1) && LastOf(snaps[j].milestones) == h;
      }
      ShownStep(snaps, epoch, j, i - 1);
    }
  }

  lemma FirstShown(snaps: seq<Snapshot>, epoch: string, i: nat)
    requires 0 < i <= |snaps|
    ensures var h' := HighestAfter(snaps[i - 1], epoch, 0);
      h' > 0 ==> WasShown(snaps, epoch, i, h')
  {
    if HighestAfter(snaps[i - 1], epoch, 0) > 0 {
      ShownStep(snaps, epoch, i - 1, i - 1);
    }
  }

  /** The cursor is at least as high as anything shown since another epoch last showed something. */
  lemma {:induction false} CursorAtLeastShown(snaps: seq<Snapshot>, epoch: string, i: nat)
    requires Sorted(snaps) && i <= |snaps|
    ensures AtLeastShown(snaps, epoch, i, Previous(CursorAt(snaps, i), epoch))
  {
    if i > 0 {
      CursorAtLeastShown(snaps, epoch, i - 1);
      PreviousStep(snaps, epoch, i);
      AtLeastShownStep(snaps, epoch, i, Previous(CursorAt(snaps, i - 1), epoch));
    }
  }

  /** And it is a number shown since then. */
  lemma {:induction false} CursorWasShown(snaps: seq<Snapshot>, epoch: string, i: nat)
    requires Sorted(snaps) && i <= |snaps| && Previous(CursorAt(snaps, i), epoch) > 0
    ensures WasShown(snaps, epoch, i, Previous(CursorAt(snaps, i), epoch))
  {
    PreviousStep(snaps, epoch, i);
    var before := Previous(CursorAt(snaps, i - 1), epoch);
    if before > 0 {
      CursorWasShown(snaps, epoch, i - 1);
      WasShownStep(snaps, epoch, i, before);
    } else {
      FirstShown(snaps, epoch, i);
    }
  }

  /** Poll k shows a milestone numbered above all that its epoch showed since it last took over. */
  ghost predicate NewAt(snaps: seq<Snapshot>, k: nat, m: Milestone)
    requires k < |snaps|
  {
    && m in snaps[k].milestones
    && forall j: nat :: ShownUpTo(snaps, snaps[k].epoch, j, k) ==> LastOf(snaps[j].milestones) < m.sequence
  }

  /** Main result: over any sorted snapshots, what a poll delivers, read off the snapshots alone. */
  lemma FreshIff(snaps: seq<Snapshot>, k: nat, m: Milestone)
    requires Sorted(snaps) && k < |snaps|
    ensures m in FreshAt(snaps, k) <==> NewAt(snaps, k, m)
  {
    var previous := Previous(CursorAt(snaps, k), snaps[k].epoch);
    CursorAtLeastShown(snaps, snaps[k].epoch, k);
    if previous > 0 {
      CursorWasShown(snaps, snaps[k].epoch, k);
    }
    DeliverMembers(CursorAt(snaps, k), snaps[k].epoch, snaps[k].milestones);
  }

  ghost predicate DeliveredBy(snaps: seq<Snapshot>, i: nat, m: Milestone)
    requires i < |snaps|
  {
    exists k: nat :: k <= i && snaps[k].epoch == snaps[i].epoch && m in FreshAt(snaps, k)
  }

  ghost predicate SeenBefore(snaps: seq<Snapshot>, i: nat, m: Milestone)
    requires i < |snaps|
  {
    exists k: nat :: k < i && snaps[k].epoch == snaps[i].epoch && m in snaps[k].milestones
  }

  /** A poll that shows a number its epoch has passed shows a milestone seen before. */
  ghost predicate NoLatecomers(snaps: seq<Snapshot>) {
    forall i: nat, j: nat, m ::
      (i < |snaps| && ShownUpTo(snaps, snaps[i].epoch, j, i) && m in snaps[i].milestones
       && m.sequence <= LastOf(snaps[j].milestones)) ==> SeenBefore(snaps, i, m)
  }

  lemma {:induction false} SeenIsDelivered(snaps: seq<Snapshot>, i: nat, m: Milestone)
    requires Sorted(snaps) && NoLatecomers(snaps) && i < |snaps| && m in snaps[i].milestones
    ensures DeliveredBy(snaps, i, m)
  {
    FreshIff(snaps, i, m);
    if !NewAt(snaps, i, m) {
      var j: nat :| ShownUpTo(snaps, snaps[i].epoch, j, i) && LastOf(snaps[j].milestones) >= m.sequence;
      assert SeenBefore(snaps, i, m);
      var k: nat :| k < i && snaps[k].epoch == snaps[i].epoch && m in snaps[k].milestones;
      SeenIsDelivered(snaps, k, m);
    }
  }

  /** Main result: everything seen is delivered by the end of its poll exactly when nothing comes late. */
  lemma EverythingSeenIff(snaps: seq<Snapshot>)
    requires Sorted(snaps)
    ensures (forall i: nat, m :: i < |snaps| && m in snaps[i].milestones ==> DeliveredBy(snaps, i, m))
            <==> NoLatecomers(snaps)
  {
    if NoLatecomers(snaps) {
      forall i: nat, m | i < |snaps| && m in snaps[i].milestones
        ensures DeliveredBy(snaps, i, m)
      {
        SeenIsDelivered(snaps, i, m);
      }
    } else {
      var i: nat, j: nat, m :| i < |snaps| && ShownUpTo(snaps, snaps[i].epoch, j, i) && m in snaps[i].milestones
        && m.sequence <= LastOf(snaps[j].milestones) && !SeenBefore(snaps, i, m);
      forall k: nat | k <= i && snaps[k].epoch == snaps[i].epoch
        ensures m !in FreshAt(snaps, k)
      {
        FreshIff(snaps, k, m);
      }
    }
  }

  // ---------------------------------------------------------------------- sliding windows

  /** The later list goes at least as far, and what it keeps of the earlier numbers was there. */
  ghost predicate Slides(earlier: seq<Milestone>, later: seq<Milestone>) {
    && LastOf(earlier) <= LastOf(later)
    && forall m :: m in later && m.sequence <= LastOf(earlier) ==> m in earlier
  }

  /** Polls of one epoch show windows on its ledger, in the order the ledger grew. */
  ghost predicate Sliding(snaps: seq<Snapshot>) {
    && Sorted(snaps)
    && forall i, k :: 0 <= i < k < |snaps| && snaps[i].epoch == snaps[k].epoch ==>
         Slides(snaps[i].milestones, snaps[k].milestones)
  }

  lemma InLast(ms: seq<Milestone>, m: Milestone)
    requires Ascending(ms, 0) && m in ms
    ensures 0 < m.sequence <= LastOf(ms)
  {
  }

  lemma SlidingHasNoLatecomers(snaps: seq<Snapshot>)
    requires Sliding(snaps)
    ensures NoLatecomers(snaps)
  {
    forall i: nat, j: nat, m | i < |snaps| && ShownUpTo(snaps, snaps[i].epoch, j, i)
      && m in snaps[i].milestones && m.sequence <= LastOf(snaps[j].milestones)
      ensures SeenBefore(snaps, i, m)
    {
      assert m in snaps[j].milestones;
    }
  }

  lemma DeliveredWasShown(snaps: seq<Snapshot>, i: nat, m: Milestone)
    requires Sorted(snaps) && i < |snaps| && DeliveredBy(snaps, i, m)
    ensures m in snaps[i].milestones || SeenBefore(snaps, i, m)
  {
    var k: nat :| k <= i && snaps[k].epoch == snaps[i].epoch && m in FreshAt(snaps, k);
    FreshIff(snaps, k, m);
  }

  lemma SeenBeforeIsDelivered(snaps: seq<Snapshot>, i: nat, m: Milestone)
    requires Sorted(snaps) && NoLatecomers(snaps) && i < |snaps| && SeenBefore(snaps, i, m)
    ensures DeliveredBy(snaps, i, m)
  {
    var k: nat :| k < i && snaps[k].epoch == snaps[i].epoch && m in snaps[k].milestones;
    SeenIsDelivered(snaps, k, m);
  }

  /** A milestone is delivered exactly when some poll of its epoch showed it before it was drained. */
  lemma DeliveredIffShown(snaps: seq<Snapshot>, i: nat, m: Milestone)
    requires Sliding(snaps) && i < |snaps|
    ensures DeliveredBy(snaps, i, m) <==> m in snaps[i].milestones || SeenBefore(snaps, i, m)
  {
    SlidingHasNoLatecomers(snaps);
    if DeliveredBy(snaps, i, m) {
      DeliveredWasShown(snaps, i, m);
    } else if m in snaps[i].milestones {
      SeenIsDelivered(snaps, i, m);
    } else if SeenBefore(snaps, i, m) {
      SeenBeforeIsDelivered(snaps, i, m);
    }
  }

  /** The last poll before i that showed a milestone, or -1. */
  function LastShown(snaps: seq<Snapshot>, i: nat): (p: int)
    requires i <= |snaps|
    ensures -1 <= p < i
    ensures p >= 0 ==> snaps[p].milestones != []
    ensures forall j :: p < j < i ==> snaps[j].milestones == []
  {
    if i == 0 then -1 else if snaps[i - 1].milestones != [] then i - 1 else LastShown(snaps, i - 1)
  }

  lemma LastGrows(snaps: seq<Snapshot>, p: int, k: nat)
    requires Sliding(snaps) && p < k < |snaps|
    ensures p >= 0 && snaps[p].epoch == snaps[k].epoch ==> LastOf(snaps[p].milestones) <= LastOf(snaps[k].milestones)
    ensures snaps[k].milestones != [] ==> LastOf(snaps[k].milestones) > 0
  {
  }

  ghost function CursorOf(snaps: seq<Snapshot>, p: int): Option<Cursor>
    requires -1 <= p < |snaps|
  {
    if p < 0 then None else Some(Cursor(snaps[p].epoch, LastOf(snaps[p].milestones)))
  }

  lemma {:induction false} CursorIsLastShown(snaps: seq<Snapshot>, i: nat)
    requires i <= |snaps| && Sliding(snaps)
    ensures CursorAt(snaps, i) == CursorOf(snaps, LastShown(snaps, i))
  {
    if i > 0 {
      CursorIsLastShown(snaps, i - 1);
      LastShownStep(snaps, i, LastShown(snaps, i - 1));
    }
  }

  lemma LastShownStep(snaps: seq<Snapshot>, i: nat, p: int)
    requires 0 < i <= |snaps| && Sliding(snaps) && -1 <= p < i - 1
    ensures Deliver(CursorOf(snaps, p), snaps[i - 1].epoch, snaps[i - 1].milestones).cursor
      == CursorOf(snaps, if snaps[i - 1].milestones == [] then p else i - 1)
  {
    LastGrows(snaps, p, i - 1);
    DeliverCursor(CursorOf(snaps, p), snaps[i - 1].epoch, snaps[i - 1].milestones);
  }

  /** Two polls deliver the same milestone of the same epoch. */
  ghost predicate Repeats(snaps: seq<Snapshot>, i: nat, k: nat) {
    && i < k < |snaps| && snaps[i].epoch == snaps[k].epoch
    && exists m, m' :: m in FreshAt(snaps, i) && m' in FreshAt(snaps, k) && m.sequence == m'.sequence
  }

  ghost predicate ReturnsWith(snaps: seq<Snapshot>, i: nat, j: nat, k: nat, m: Milestone) {
    && i < j < k < |snaps|
    && snaps[i].epoch == snaps[k].epoch != snaps[j].epoch && snaps[j].milestones != []
    && m in snaps[i].milestones && m in snaps[k].milestones
  }

  /**
   An epoch shows milestones, then another one does, then the first again, with one of those
   milestones still in its window.
   */
  ghost predicate Returns(snaps: seq<Snapshot>) {
    exists i, j, k, m :: ReturnsWith(snaps, i, j, k, m)
  }

  lemma RepeatReturns(snaps: seq<Snapshot>, i: nat, k: nat)
    requires Sliding(snaps) && Repeats(snaps, i, k)
    ensures Returns(snaps)
  {
    var m, m' :| m in FreshAt(snaps, i) && m' in FreshAt(snaps, k) && m.sequence == m'.sequence;
    FreshIff(snaps, i, m);
    FreshIff(snaps, k, m');
    InLast(snaps[i].milestones, m);
    assert !ShownUpTo(snaps, snaps[k].epoch, i, k);
    var j :| i < j < k && snaps[j].epoch != snaps[k].epoch && snaps[j].milestones != [];
    assert ReturnsWith(snaps, i, j, k, m');
  }

  lemma StillShown(snaps: seq<Snapshot>, i: nat, q: nat, k: nat, m: Milestone)
    requires Sliding(snaps) && i < q < k < |snaps| && snaps[i].epoch == snaps[q].epoch == snaps[k].epoch
    requires m in snaps[i].milestones && m in snaps[k].milestones
    ensures m in snaps[q].milestones
  {
    InLast(snaps[i].milestones, m);
  }

  /** If the milestone is not new at k, an earlier poll after the return shows it too. */
  lemma SoonerReturn(snaps: seq<Snapshot>, i: nat, j: nat, k: nat, m: Milestone) returns (q: nat)
    requires Sliding(snaps) && ReturnsWith(snaps, i, j, k, m) && !NewAt(snaps, k, m)
    ensures q < k && ReturnsWith(snaps, i, j, q, m)
  {
    q :| ShownUpTo(snaps, snaps[k].epoch, q, k) && LastOf(snaps[q].milestones) >= m.sequence;
    AfterTheOther(snaps, j, q, k);
    StillShown(snaps, i, q, k, m);
  }

  lemma AfterTheOther(snaps: seq<Snapshot>, j: nat, q: nat, k: nat)
    requires j < k < |snaps| && snaps[j].epoch != snaps[k].epoch && snaps[j].milestones != []
    requires ShownUpTo(snaps, snaps[k].epoch, q, k)
    ensures j < q
  {
  }

  lemma DeliveredAgain(snaps: seq<Snapshot>, i: nat, j: nat, k: nat, m: Milestone) returns (i': nat)
    requires Sliding(snaps) && ReturnsWith(snaps, i, j, k, m) && NewAt(snaps, k, m)
    ensures Repeats(snaps, i', k)
  {
    FreshIff(snaps, k, m);
    SlidingHasNoLatecomers(snaps);
    SeenIsDelivered(snaps, i, m);
    i' :| i' <= i && snaps[i'].epoch == snaps[i].epoch && m in FreshAt(snaps, i');
  }

  lemma {:induction false} ReturnRepeats(snaps: seq<Snapshot>, i: nat, j: nat, k: nat, m: Milestone)
    returns (i': nat, k': nat)
    requires Sliding(snaps) && ReturnsWith(snaps, i, j, k, m)
    ensures Repeats(snaps, i', k')
    decreases k
  {
    if NewAt(snaps, k, m) {
      i' := DeliveredAgain(snaps, i, j, k, m);
      k' := k;
    } else {
      var q := SoonerReturn(snaps, i, j, k, m);
      i', k' := ReturnRepeats(snaps, i, j, q, m);
    }
  }

  /**
   Main result: a milestone is delivered twice exactly when its epoch comes back after another
   one showed milestones, and one it showed before is still in its window: the cursor remembers
   one epoch only.
   */
  lemma ExactlyOnceIff(snaps: seq<Snapshot>)
    requires Sliding(snaps)
    ensures (exists i, k :: Repeats(snaps, i, k)) <==> Returns(snaps)
  {
    if Returns(snaps) {
      var i, j, k, m :| ReturnsWith(snaps, i, j, k, m);
      var i', k' := ReturnRepeats(snaps, i, j, k, m);
    }
    if i: nat, k: nat :| Repeats(snaps, i, k) {
      RepeatReturns(snaps, i, k);
    }
  }

  // ---------------------------------------------------------------------------- the ledger

  const MAX_PROGRESS_MILESTONES := 32

  /** What the bounded ledger keeps of all milestones ever noted. */
  function Window(history: seq<Milestone>): seq<Milestone> {
    if |history| <= MAX_PROGRESS_MILESTONES then history
    else history[|history| - MAX_PROGRESS_MILESTONES..]
  }

  ghost predicate Numbered(history: seq<Milestone>) {
    forall i :: 0 <= i < |history| ==> history[i].sequence == i + 1
  }

  lemma WindowMore(history: seq<Milestone>, m: Milestone)
    ensures var longer := Window(history) + [m];
      Window(history + [m]) == if |longer| > MAX_PROGRESS_MILESTONES then longer[|longer| - MAX_PROGRESS_MILESTONES..] else longer
  {
    var more := history + [m];
    if |more| > MAX_PROGRESS_MILESTONES {
      assert more[|more| - MAX_PROGRESS_MILESTONES..] == more[|more| - MAX_PROGRESS_MILESTONES..|history|] + [m];
    }
  }

  lemma NumberedMore(history: seq<Milestone>, summary: string)
    requires Numbered(history)
    ensures Numbered(history + [Milestone(|history| + 1, summary)])
  {
  }

  /** The milestones of one epoch's record. The history is everything noted so far. */
  class Ledger {
    var milestones: seq<Milestone>
    var nextSequence: nat
    ghost var history: seq<Milestone>

    ghost predicate Valid()
      reads this
    {
      nextSequence == |history| && Numbered(history) && milestones == Window(history)
    }

    constructor ()
      ensures Valid() && history == []
    {
      milestones, nextSequence, history := [], 0, [];
    }

    method NoteProgressMilestone(summary: string)
      requires Valid()
      modifies this
      ensures Valid()
      ensures history == old(history) + [Milestone(|old(history)| + 1, summary)]
      ensures milestones == if |history| <= 32 then history else history[|history| - 32..]
    {
      var sequence := nextSequence + 1;
      WindowMore(history, Milestone(sequence, summary));
      NumberedMore(history, summary);
      nextSequence := sequence;
      milestones := milestones + [Milestone(sequence, summary)];
      history := history + [Milestone(sequence, summary)];
      if |milestones| > MAX_PROGRESS_MILESTONES {
        var excess := |milestones| - MAX_PROGRESS_MILESTONES;
        milestones := milestones[excess..];
      }
    }
  }

  /** Poll i reads the ledger of its epoch when that ledger's history is `histories[i]`. */
  ghost predicate Recorded(snaps: seq<Snapshot>, histories: seq<seq<Milestone>>) {
    && |histories| == |snaps|
    && (forall i :: 0 <= i < |snaps| ==> Numbered(histories[i]) && snaps[i].milestones == Window(histories[i]))
    && forall i, k :: 0 <= i < k < |snaps| && snaps[i].epoch == snaps[k].epoch ==> histories[i] <= histories[k]
  }

  lemma InWindow(history: seq<Milestone>, m: Milestone)
    requires Numbered(history)
    ensures m in Window(history) <==>
              && 0 < m.sequence <= |history| < m.sequence + MAX_PROGRESS_MILESTONES
              && history[m.sequence - 1] == m
  {
    var w := Window(history);
    if 0 < m.sequence <= |history| < m.sequence + MAX_PROGRESS_MILESTONES && history[m.sequence - 1] == m {
      assert w[m.sequence - 1 - (|history| - |w|)] == m;
    }
  }

  lemma WindowSlides(earlier: seq<Milestone>, later: seq<Milestone>)
    requires Numbered(earlier) && Numbered(later) && earlier <= later
    ensures Slides(Window(earlier), Window(later))
  {
    forall m | m in Window(later) && m.sequence <= LastOf(Window(earlier))
      ensures m in Window(earlier)
    {
      InWindow(later, m);
      InWindow(earlier, m);
    }
  }

  /** Polls that read the ledgers in order see sliding windows, however much was drained between them. */
  lemma LedgerSlides(snaps: seq<Snapshot>, histories: seq<seq<Milestone>>)
    requires Recorded(snaps, histories)
    ensures Sliding(snaps)
  {
    forall i, k | 0 <= i < k < |snaps| && snaps[i].epoch == snaps[k].epoch
      ensures Slides(snaps[i].milestones, snaps[k].milestones)
    {
      WindowSlides(histories[i], histories[k]);
    }
  }

  // ------------------------------------------------------------------ the program's form

  /** What one turn of the waiting loop can meet. Everything in it comes from outside. */
  datatype Poll =
    | CancelRequested(body: Option<string>, confirmed: bool)
    | ObservationFailed
    | Observed(completion: Option<string>, snapshot: Option<Snapshot>, stopped: Option<string>)

  datatype Outcome = Outcome(text: string, cancelled: bool)

  const CANCEL_UNCONFIRMED := "Release cancellation could not be confirmed; check native release status."
  const UNCONFIRMED := "Release observation failed; completion is unconfirmed."

  /** The outcome of a poll that ends the wait before any milestone is looked at. */
  function Stop(poll: Poll, acknowledgement: string): (r: Option<Outcome>)
    ensures r.None? ==> poll.Observed? && poll.snapshot.Some?
  {
    match poll
    case CancelRequested(body, confirmed) =>
      if body.Some? then Some(Outcome(body.value, confirmed)) else Some(Outcome(CANCEL_UNCONFIRMED, false))
    case ObservationFailed => Some(Outcome(UNCONFIRMED, false))
    case Observed(completion, snapshot, stopped) =>
      if completion.Some? then Some(Outcome(completion.value, false))
      else if snapshot.Some? then None
      else Some(Outcome(if stopped.Some? then stopped.value else acknowledgement, false))
  }

  function Unfinished(s: Snapshot): Outcome {
    Outcome("Release unfinished: " + s.detail, false)
  }

  /** The snapshots whose milestones are looked at, and how the wait ends, if it does. */
  function Waited(polls: seq<Poll>, acknowledgement: string): (seq<Snapshot>, Option<Outcome>) {
    if polls == [] then ([], None) else
    var stop := Stop(polls[0], acknowledgement);
    if stop.Some? then ([], stop) else
    var s := polls[0].snapshot.value;
    if s.recoverable then ([s], Some(Unfinished(s))) else
    var rest := Waited(polls[1..], acknowledgement);
    ([s] + rest.0, rest.1)
  }

  /** The poll ends the wait with this text, and says whether a cancellation is confirmed. */
  predicate Ends(poll: Poll, acknowledgement: string, text: string, confirmed: bool) {
    match poll
    case CancelRequested(body, sure) =>
      if body.Some? then text == body.value && confirmed == sure
      else text == "Release cancellation could not be confirmed; check native release status." && !confirmed
    case ObservationFailed => text == "Release observation failed; completion is unconfirmed." && !confirmed
    case Observed(completion, snapshot, stopped) =>
      && !confirmed
      && if completion.Some? then text == completion.value
         else if snapshot.None? then text == (if stopped.Some? then stopped.value else acknowledgement)
         else snapshot.value.recoverable && text == "Release unfinished: " + snapshot.value.detail
  }

  /** A poll that shows a snapshot, which it does even when a recoverable release ends the wait. */
  predicate Shows(poll: Poll) {
    poll.Observed? && poll.completion.None? && poll.snapshot.Some?
  }

  function SnapshotsOf(polls: seq<Poll>, n: nat): seq<Snapshot>
    requires n <= |polls|
  {
    if n == 0 then []
    else SnapshotsOf(polls, n - 1) + (if Shows(polls[n - 1]) then [polls[n - 1].snapshot.value] else [])
  }

  ghost predicate Silent(polls: seq<Poll>, acknowledgement: string, n: nat)
    requires n <= |polls|
  {
    forall i, text, confirmed :: 0 <= i < n ==> !Ends(polls[i], acknowledgement, text, confirmed)
  }

  /** How a wait over some polls goes: the first poll that ends it decides, and none before it does. */
  ghost predicate Goes(polls: seq<Poll>, acknowledgement: string, snaps: seq<Snapshot>, outcome: Option<Outcome>) {
    if outcome.None? then Silent(polls, acknowledgement, |polls|) && snaps == SnapshotsOf(polls, |polls|)
    else exists n: nat :: n < |polls| && Silent(polls, acknowledgement, n)
           && Ends(polls[n], acknowledgement, outcome.value.text, outcome.value.cancelled)
           && snaps == SnapshotsOf(polls, n + 1)
  }

  lemma {:induction false} SnapshotsCons(polls: seq<Poll>, n: nat)
    requires 0 < n <= |polls|
    ensures SnapshotsOf(polls, n)
      == (if Shows(polls[0]) then [polls[0].snapshot.value] else []) + SnapshotsOf(polls[1..], n - 1)
  {
    if n > 1 {
      SnapshotsCons(polls, n - 1);
    }
  }

  lemma EndsOnce(poll: Poll, acknowledgement: string)
    ensures var stop := Stop(poll, acknowledgement);
      stop.Some? ==> Ends(poll, acknowledgement, stop.value.text, stop.value.cancelled) && !Shows(poll)
    ensures Stop(poll, acknowledgement).None? ==> Shows(poll)
    ensures Shows(poll) && poll.snapshot.value.recoverable ==>
              Ends(poll, acknowledgement, Unfinished(poll.snapshot.value).text, Unfinished(poll.snapshot.value).cancelled)
    ensures Shows(poll) && !poll.snapshot.value.recoverable ==> forall t, b :: !Ends(poll, acknowledgement, t, b)
  {
  }

  /** Main result: the wait ends with the first poll that ends it, and has looked at every snapshot shown. */
  lemma {:induction false} WaitGoes(polls: seq<Poll>, acknowledgement: string)
    ensures var waited := Waited(polls, acknowledgement); Goes(polls, acknowledgement, waited.0, waited.1)
  {
    if polls != [] {
      var rest := polls[1..];
      EndsOnce(polls[0], acknowledgement);
      SnapshotsCons(polls, 1);
      WaitGoes(rest, acknowledgement);
      var waited := Waited(polls, acknowledgement);
      if Stop(polls[0], acknowledgement).None? && !polls[0].snapshot.value.recoverable {
        WaitGoesOn(polls, acknowledgement, Waited(rest, acknowledgement).0, Waited(rest, acknowledgement).1);
      } else {
        assert Silent(polls, acknowledgement, 0);
        assert Ends(polls[0], acknowledgement, waited.1.value.text, waited.1.value.cancelled);
        assert waited.0 == SnapshotsOf(polls, 0 + 1);
      }
    }
  }

  lemma WaitGoesOn(polls: seq<Poll>, acknowledgement: string, snaps: seq<Snapshot>, outcome: Option<Outcome>)
    requires polls != [] && Shows(polls[0]) && forall t, b :: !Ends(polls[0], acknowledgement, t, b)
    requires Goes(polls[1..], acknowledgement, snaps, outcome)
    ensures Goes(polls, acknowledgement, [polls[0].snapshot.value] + snaps, outcome)
  {
    var rest := polls[1..];
    if outcome.None? {
      SnapshotsCons(polls, |polls|);
      SilentCons(polls, acknowledgement, |polls|);
    } else {
      var n: nat :| n < |rest| && Silent(rest, acknowledgement, n)
        && Ends(rest[n], acknowledgement, outcome.value.text, outcome.value.cancelled)
        && snaps == SnapshotsOf(rest, n + 1);
      SnapshotsCons(polls, n + 2);
      SilentCons(polls, acknowledgement, n + 1);
      assert polls[n + 1] == rest[n];
    }
  }

  lemma SilentCons(polls: seq<Poll>, acknowledgement: string, n: nat)
    requires 0 < n <= |polls| && forall t, b :: !Ends(polls[0], acknowledgement, t, b)
    requires Silent(polls[1..], acknowledgement, n - 1)
    ensures Silent(polls, acknowledgement, n)
  {
    forall i, t, b | 0 <= i < n
      ensures !Ends(polls[i], acknowledgement, t, b)
    {
      if i > 0 {
        assert polls[1..][i - 1] == polls[i];
      }
    }
  }

  function Delivered(snaps: seq<Snapshot>, n: nat): seq<Milestone>
    requires n <= |snaps|
  {
    if n == 0 then [] else Delivered(snaps, n - 1) + FreshAt(snaps, n - 1)
  }

  lemma {:induction false} PrefixStable(snaps: seq<Snapshot>, s: Snapshot, n: nat)
    requires n <= |snaps|
    ensures CursorAt(snaps + [s], n) == CursorAt(snaps, n)
    ensures Delivered(snaps + [s], n) == Delivered(snaps, n)
  {
    if n > 0 {
      PrefixStable(snaps, s, n - 1);
      assert (snaps + [s])[n - 1] == snaps[n - 1];
    }
  }

  lemma OneMore(snaps: seq<Snapshot>, s: Snapshot)
    ensures var n, r := |snaps|, Deliver(CursorAt(snaps, |snaps|), s.epoch, s.milestones);
      && CursorAt(snaps + [s], n + 1) == r.cursor
      && Delivered(snaps + [s], n + 1) == Delivered(snaps, n) + r.delivered
  {
    PrefixStable(snaps, s, |snaps|);
    assert (snaps + [s])[|snaps|] == s;
  }

  method DeliverSnapshot(cursor: Option<Cursor>, s: Snapshot) returns (next: Option<Cursor>, out: seq<Milestone>)
    ensures Delivery(next, out) == Deliver(cursor, s.epoch, s.milestones)
  {
    next, out := cursor, [];
    var ms := s.milestones;
    assert ms[0..] == ms;
    for i := 0 to |ms|
      invariant Deliver(cursor, s.epoch, ms)
        == Delivery(Deliver(next, s.epoch, ms[i..]).cursor, out + Deliver(next, s.epoch, ms[i..]).delivered)
    {
      assert ms[i..][1..] == ms[i + 1..];
      if ms[i].sequence > Previous(next, s.epoch) {
        out := out + [ms[i]];
        next := Some(Cursor(s.epoch, ms[i].sequence));
      }
    }
  }

  /** The waiting loop, over however many polls happen. */
  method AwaitReleaseDelivery(polls: seq<Poll>, acknowledgement: string)
    returns (sent: seq<Milestone>, outcome: Option<Outcome>)
    ensures var waited := Waited(polls, acknowledgement);
      sent == Delivered(waited.0, |waited.0|) && outcome == waited.1
  {
    var cursor: Option<Cursor> := None;
    sent := [];
    ghost var snaps: seq<Snapshot> := [];
    assert polls[0..] == polls && [] + Waited(polls, acknowledgement).0 == Waited(polls, acknowledgement).0;
    for i := 0 to |polls|
      invariant Waited(polls, acknowledgement) == After(snaps, Waited(polls[i..], acknowledgement))
      invariant Waiting(snaps, cursor, sent)
    {
      WaitedStep(snaps, polls, i, acknowledgement);
      var stop := Stop(polls[i], acknowledgement);
      if stop.Some? {
        return sent, stop;
      }
      var s := polls[i].snapshot.value;
      var out;
      ghost var before := cursor;
      cursor, out := DeliverSnapshot(cursor, s);
      WaitMore(snaps, before, sent, s, cursor, out);
      sent := sent + out;
      if s.recoverable {
        return sent, Some(Unfinished(s));
      }
      snaps := snaps + [s];
    }
    assert snaps + [] == snaps;
    outcome := None;
  }

  /** The state of the wait after some snapshots. */
  ghost predicate Waiting(snaps: seq<Snapshot>, cursor: Option<Cursor>, sent: seq<Milestone>) {
    cursor == CursorAt(snaps, |snaps|) && sent == Delivered(snaps, |snaps|)
  }

  lemma WaitMore(snaps: seq<Snapshot>, cursor: Option<Cursor>, sent: seq<Milestone>, s: Snapshot, next: Option<Cursor>, out: seq<Milestone>)
    requires Waiting(snaps, cursor, sent) && Delivery(next, out) == Deliver(cursor, s.epoch, s.milestones)
    ensures Waiting(snaps + [s], next, sent + out)
  {
    OneMore(snaps, s);
  }

  ghost function After(snaps: seq<Snapshot>, waited: (seq<Snapshot>, Option<Outcome>)): (seq<Snapshot>, Option<Outcome>) {
    (snaps + waited.0, waited.1)
  }

  lemma WaitedStep(snaps: seq<Snapshot>, polls: seq<Poll>, i: nat, acknowledgement: string)
    requires i < |polls|
    ensures var stop, whole := Stop(polls[i], acknowledgement), After(snaps, Waited(polls[i..], acknowledgement));
      if stop.Some? then whole == (snaps, stop) else
      var s := polls[i].snapshot.value;
      if s.recoverable then whole == (snaps + [s], Some(Unfinished(s)))
      else whole == After(snaps + [s], Waited(polls[i + 1..], acknowledgement))
  {
    assert polls[i..][1..] == polls[i + 1..];
    assert snaps + [] == snaps;
    if Stop(polls[i], acknowledgement).None? {
      var s, rest := polls[i].snapshot.value, Waited(polls[i + 1..], acknowledgement);
      assert snaps + ([s] + rest.0) == snaps + [s] + rest.0;
    }
  }
}
