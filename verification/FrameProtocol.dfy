/**
 * Frame notifications between the render threads and the main loop (hw/display/apple-gfx-common-linux.c).
 * A state machine whose steps are the atomic accesses to `pending_frames` and the scheduling of bottom halves;
 * any number of producers and the main loop interleave freely.
 */
module FrameProtocol {

  /** Where a render thread stands in `apple_gfx_frame_ready`. */
  datatype Producer =
    | Outside            // not in the call
    | Published          // a frame is ready; next: compare-and-swap 0 -> 1
    | FirstFailed        // that failed; next: compare-and-swap 1 -> 2
    | MustSchedule       // it succeeded; next: schedule a bottom half

  /** Where the main loop stands in `apple_gfx_frame_ready_bh`. */
  datatype Handler =
    | Idle               // not running it
    | Entered            // next: the first read of `pending_frames`, and the test for a live display
    | LeavingEarly       // the guard held; next: the second read of `pending_frames`
    | DroppingToken      // that read was positive; next: subtract one and return
    | TakingToken        // the guard did not hold; next: subtract one
    | Reading            // next: `lagfx_display_read_frame`
    | AtTail             // next: the last read of `pending_frames`
    | Rescheduling       // that read was positive; next: schedule the bottom half again

  /**
   * `queued` counts the scheduled bottom halves that have not started. Frames are numbered as they are published;
   * `seen` is the last frame published when the most recent `lagfx_display_read_frame` began. `lost` is history:
   * a token was dropped while a frame was unread, and no frame has been read since.
   */
  datatype State = State(pending: int, queued: nat, handler: Handler, producers: seq<Producer>,
                         live: bool, published: nat, seen: nat, lost: bool)

  datatype Action =
    | Publish(p: nat)
    | FirstSwap(p: nat)
    | SecondSwap(p: nat)
    | Schedule(p: nat)
    | StartHandler
    | ReadGuard
    | ReadAgain
    | DropToken
    | TakeToken
    | ReadFrame
    | ReadTail
    | Reschedule

  predicate At(s: State, p: nat, phase: Producer) {
    p < |s.producers| && s.producers[p] == phase
  }

  predicate Enabled(s: State, a: Action) {
    match a
    case Publish(p) => At(s, p, Outside)
    case FirstSwap(p) => At(s, p, Published)
    case SecondSwap(p) => At(s, p, FirstFailed)
    case Schedule(p) => At(s, p, MustSchedule)
    case StartHandler => s.handler == Idle && s.queued > 0
    case ReadGuard => s.handler == Entered
    case ReadAgain => s.handler == LeavingEarly
    case DropToken => s.handler == DroppingToken
    case TakeToken => s.handler == TakingToken
    case ReadFrame => s.handler == Reading
    case ReadTail => s.handler == AtTail
    case Reschedule => s.handler == Rescheduling
  }

  predicate Unread(s: State) {
    s.seen < s.published
  }

  function Step(s: State, a: Action): State
    requires Enabled(s, a)
  {
    match a
    case Publish(p) => s.(producers := s.producers[p := Published], published := s.published + 1)
    case FirstSwap(p) =>
      if s.pending == 0 then s.(pending := 1, producers := s.producers[p := MustSchedule])
      else s.(producers := s.producers[p := FirstFailed])
    case SecondSwap(p) =>
      if s.pending == 1 then s.(pending := 2, producers := s.producers[p := Outside])
      else s.(producers := s.producers[p := Outside])
    case Schedule(p) => s.(queued := s.queued + 1, producers := s.producers[p := Outside])
    case StartHandler => s.(queued := s.queued - 1, handler := Entered)
    case ReadGuard => s.(handler := if s.pending <= 0 || !s.live then LeavingEarly else TakingToken)
    case ReadAgain => s.(handler := if s.pending > 0 then DroppingToken else Idle)
    case DropToken => s.(pending := s.pending - 1, handler := Idle, lost := s.lost || Unread(s))
    case TakeToken => s.(pending := s.pending - 1, handler := Reading)
    case ReadFrame => s.(handler := AtTail, seen := s.published, lost := false)
    case ReadTail => s.(handler := if s.pending > 0 then Rescheduling else Idle)
    case Reschedule => s.(queued := s.queued + 1, handler := Idle)
  }

  /** After realize: a live display, nothing pending, any number of render threads. */
  predicate Initial(s: State) {
    && s.pending == 0 && s.queued == 0 && s.handler == Idle && s.live
    && (forall p :: 0 <= p < |s.producers| ==> s.producers[p] == Outside)
    && s.published == s.seen == 0 && !s.lost
  }

  predicate Run(s: State, actions: seq<Action>)
    decreases |actions|
  {
    actions == [] || (Enabled(s, actions[0]) && Run(Step(s, actions[0]), actions[1..]))
  }

  function After(s: State, actions: seq<Action>): State
    requires Run(s, actions)
    decreases |actions|
  {
    if actions == [] then s else After(Step(s, actions[0]), actions[1..])
  }

  // ----- what every reachable state satisfies -----

  ghost predicate Some(s: State, phase: Producer) {
    exists p: nat :: At(s, p, phase)
  }

  /** A bottom half is on its way: queued, about to be scheduled, or started and not past its tail check. */
  ghost predicate WakeupComing(s: State) {
    || s.queued > 0
    || Some(s, MustSchedule)
    || s.handler in {Entered, TakingToken, Reading, AtTail, Rescheduling}
  }

  ghost predicate Invariant(s: State) {
    && s.live && s.seen <= s.published
    // the counter is capped, and a handler that is about to subtract finds something to subtract
    && 0 <= s.pending <= 2
    && (s.handler in {TakingToken, DroppingToken} ==> s.pending > 0)
    // no lost wakeup
    && (s.pending > 0 ==> WakeupComing(s))
    // an unread frame will be read, unless its token was dropped
    && (Unread(s) ==> s.lost || Some(s, Published) || s.pending > 0 || s.handler == Reading)
    && (s.lost ==> Unread(s))
  }

  lemma PhaseRemains(s: State, s': State, phase: Producer, changed: nat)
    requires |s'.producers| == |s.producers|
    requires forall p :: 0 <= p < |s.producers| && p != changed ==> s'.producers[p] == s.producers[p]
    requires Some(s, phase) && !At(s, changed, phase)
    ensures Some(s', phase)
  {
    var p: nat :| At(s, p, phase);
    assert At(s', p, phase);
  }

  lemma StepKeepsInvariant(s: State, a: Action)
    requires Invariant(s) && Enabled(s, a)
    ensures Invariant(Step(s, a))
  {
    var s' := Step(s, a);
    if a.Publish? {
      assert At(s', a.p, Published);
      if Some(s, MustSchedule) { PhaseRemains(s, s', MustSchedule, a.p); }
    } else if a.FirstSwap? {
      if s.pending == 0 {
        assert At(s', a.p, MustSchedule);
      }
      if Some(s, MustSchedule) { PhaseRemains(s, s', MustSchedule, a.p); }
    } else if a.SecondSwap? {
      if Some(s, MustSchedule) { PhaseRemains(s, s', MustSchedule, a.p); }
      if Some(s, Published) { PhaseRemains(s, s', Published, a.p); }
    } else if a.Schedule? {
      if Some(s, Published) { PhaseRemains(s, s', Published, a.p); }
    } else {
      assert Some(s, MustSchedule) ==> Some(s', MustSchedule) by { SameProducers(s, s', MustSchedule); }
      assert Some(s, Published) ==> Some(s', Published) by { SameProducers(s, s', Published); }
    }
  }

  lemma SameProducers(s: State, s': State, phase: Producer)
    requires s'.producers == s.producers
    ensures Some(s, phase) ==> Some(s', phase)
  {
    if Some(s, phase) {
      var p: nat :| At(s, p, phase);
      assert At(s', p, phase);
    }
  }

  lemma {:induction false} RunKeepsInvariant(s: State, actions: seq<Action>)
    requires Invariant(s) && Run(s, actions)
    ensures Invariant(After(s, actions))
    decreases |actions|
  {
    if actions != [] {
      StepKeepsInvariant(s, actions[0]);
      RunKeepsInvariant(Step(s, actions[0]), actions[1..]);
    }
  }

  lemma InitialSatisfiesInvariant(s: State)
    requires Initial(s)
    ensures Invariant(s)
  {
  }

  /**
   * No lost wakeup: whatever the interleaving, the counter is 0, 1 or 2, and while it is positive a bottom half is
   * queued, or has not passed its tail check, or is about to be scheduled by the thread that raised the counter from 0.
   */
  lemma NoLostWakeup(s: State, actions: seq<Action>)
    requires Initial(s) && Run(s, actions)
    ensures 0 <= After(s, actions).pending <= 2
    ensures After(s, actions).pending > 0 ==> WakeupComing(After(s, actions))
  {
    InitialSatisfiesInvariant(s);
    RunKeepsInvariant(s, actions);
  }

  // ----- freshness -----

  /** No bottom half queued or running, and no producer in the middle of its call. */
  predicate Quiescent(s: State) {
    && s.queued == 0 && s.handler == Idle
    && forall p :: 0 <= p < |s.producers| ==> s.producers[p] == Outside
  }

  /**
   * At rest, the display shows the last published frame exactly when no token has been dropped over an unread frame
   * since the last read.
   */
  lemma FreshExactly(s: State, actions: seq<Action>)
    requires Initial(s) && Run(s, actions) && Quiescent(After(s, actions))
    ensures var s' := After(s, actions);
      s'.pending == 0 && (s'.seen == s'.published <==> !s'.lost)
  {
    InitialSatisfiesInvariant(s);
    RunKeepsInvariant(s, actions);
  }

  /** The two reads of the early exit never see the counter rise between them. */
  predicate DropFree(actions: seq<Action>) {
    forall i :: 0 <= i < |actions| ==> actions[i] != DropToken
  }

  lemma {:induction false} NothingLost(s: State, actions: seq<Action>)
    requires Run(s, actions) && DropFree(actions) && !s.lost
    ensures !After(s, actions).lost
    decreases |actions|
  {
    if actions != [] {
      assert actions[0] != DropToken;
      NothingLost(Step(s, actions[0]), actions[1..]);
    }
  }

  lemma FreshWithoutDrops(s: State, actions: seq<Action>)
    requires Initial(s) && Run(s, actions) && DropFree(actions) && Quiescent(After(s, actions))
    ensures After(s, actions).seen == After(s, actions).published
  {
    NothingLost(s, actions);
    FreshExactly(s, actions);
  }

  lemma {:induction false} RunPrefix(s: State, a: seq<Action>, b: seq<Action>)
    requires Run(s, a + b)
    ensures Run(s, a) && Run(After(s, a), b) && After(s, a + b) == After(After(s, a), b)
    decreases |a|
  {
    if a == [] {
      assert a + b == b;
    } else {
      assert (a + b)[1..] == a[1..] + b;
      RunPrefix(Step(s, a[0]), a[1..], b);
    }
  }

  lemma OneStep(s: State, a: Action)
    ensures Run(s, [a]) <==> Enabled(s, a)
    ensures Run(s, [a]) ==> After(s, [a]) == Step(s, a)
  {
    hide Enabled, Step;
    assert [a][1..] == [];
    if Enabled(s, a) {
      assert Run(Step(s, a), []) && After(Step(s, a), []) == Step(s, a);
    }
  }

  lemma LastStep(s: State, actions: seq<Action>)
    requires actions != [] && Run(s, actions)
    ensures var n := |actions| - 1;
      && Run(s, actions[..n]) && Enabled(After(s, actions[..n]), actions[n])
      && After(s, actions) == Step(After(s, actions[..n]), actions[n])
  {
    hide Run, After, Enabled, Step;
    var n := |actions| - 1;
    assert actions == actions[..n] + [actions[n]];
    RunPrefix(s, actions[..n], [actions[n]]);
    OneStep(After(s, actions[..n]), actions[n]);
  }

  predicate NoReadAfter(actions: seq<Action>, i: int) {
    forall k :: 0 <= k < |actions| && i < k ==> actions[k] != ReadFrame
  }

  /** Some frame was published and no read began after it. */
  ghost predicate PublishedUnread(actions: seq<Action>) {
    exists i :: 0 <= i < |actions| && actions[i].Publish? && NoReadAfter(actions, i)
  }

  /** Some token was dropped after a frame was published, and no read began after that frame. */
  ghost predicate DroppedUnread(actions: seq<Action>) {
    exists i, j :: 0 <= i < j < |actions| && actions[i].Publish? && actions[j] == DropToken && NoReadAfter(actions, i)
  }

  lemma NoReadAfterOneMore(actions: seq<Action>, i: int)
    requires 0 <= i < |actions| - 1
    ensures NoReadAfter(actions, i) <==>
      NoReadAfter(actions[..|actions| - 1], i) && actions[|actions| - 1] != ReadFrame
  {
    var n := |actions| - 1;
    assert forall k :: 0 <= k < n ==> actions[..n][k] == actions[k];
  }

  lemma PublishedOneMore(actions: seq<Action>)
    requires actions != []
    ensures var n := |actions| - 1;
      PublishedUnread(actions) <==> actions[n].Publish? || (PublishedUnread(actions[..n]) && actions[n] != ReadFrame)
  {
    var n := |actions| - 1;
    if PublishedUnread(actions) && !actions[n].Publish? {
      var i :| 0 <= i < |actions| && actions[i].Publish? && NoReadAfter(actions, i);
      NoReadAfterOneMore(actions, i);
      assert actions[..n][i].Publish?;
    }
    if PublishedUnread(actions[..n]) && actions[n] != ReadFrame {
      var i :| 0 <= i < n && actions[..n][i].Publish? && NoReadAfter(actions[..n], i);
      NoReadAfterOneMore(actions, i);
    }
    if actions[n].Publish? {
      assert NoReadAfter(actions, n);
    }
  }

  lemma DroppedOneMore(actions: seq<Action>)
    requires actions != []
    ensures var n := |actions| - 1;
      DroppedUnread(actions) <==>
        if actions[n] == ReadFrame then false
        else DroppedUnread(actions[..n]) || (actions[n] == DropToken && PublishedUnread(actions[..n]))
  {
    var n := |actions| - 1;
    if DroppedUnread(actions) {
      var i, j :| 0 <= i < j < |actions| && actions[i].Publish? && actions[j] == DropToken && NoReadAfter(actions, i);
      NoReadAfterOneMore(actions, i);
      assert actions[..n][i].Publish?;
      if j < n {
        assert actions[..n][j] == DropToken;
      }
    }
    if actions[n] != ReadFrame {
      if DroppedUnread(actions[..n]) {
        var i, j :| 0 <= i < j < n && actions[..n][i].Publish? && actions[..n][j] == DropToken && NoReadAfter(actions[..n], i);
        NoReadAfterOneMore(actions, i);
        assert actions[i].Publish? && actions[j] == DropToken;
      } else if actions[n] == DropToken && PublishedUnread(actions[..n]) {
        var i :| 0 <= i < n && actions[..n][i].Publish? && NoReadAfter(actions[..n], i);
        NoReadAfterOneMore(actions, i);
        assert actions[i].Publish? && actions[n] == DropToken;
      }
    }
  }

  /** The history variables of the model say what they should about the sequence of steps. */
  lemma {:induction false} HistoryIsTrue(s: State, actions: seq<Action>)
    requires Initial(s) && Run(s, actions)
    ensures After(s, actions).seen <= After(s, actions).published
    ensures Unread(After(s, actions)) <==> PublishedUnread(actions)
    ensures After(s, actions).lost <==> DroppedUnread(actions)
    decreases |actions|
  {
    hide Run, After, Enabled;
    if actions == [] {
      NothingDone(s);
    } else {
      var n := |actions| - 1;
      LastStep(s, actions);
      HistoryIsTrue(s, actions[..n]);
      PublishedOneMore(actions);
      DroppedOneMore(actions);
    }
  }

  lemma NothingDone(s: State)
    ensures Run(s, []) && After(s, []) == s && !PublishedUnread([]) && !DroppedUnread([])
  {
  }

  /**
   * Some token was dropped by an early exit after a frame was published, with no read of a frame in between, and since
   * then no bottom half has taken a token.
   */
  ghost predicate DroppedLast(actions: seq<Action>) {
    exists i, j :: 0 <= i < j < |actions| && actions[i].Publish? && actions[j] == DropToken
      && NoReadAfter(actions[..j], i) && TakeToken !in actions[j + 1..]
  }

  /** A bottom half reads only after it has taken a token. */
  lemma {:induction false} NoTakeNoRead(s: State, actions: seq<Action>)
    requires Run(s, actions) && s.handler != Reading && TakeToken !in actions
    ensures ReadFrame !in actions
    decreases |actions|
  {
    if actions != [] {
      assert actions == [actions[0]] + actions[1..];
      NoTakeNoRead(Step(s, actions[0]), actions[1..]);
    }
  }

  /** And once it has taken one it reads, before anything else it does. */
  lemma {:induction false} TakenIsRead(s: State, actions: seq<Action>)
    requires Run(s, actions) && s.handler == Reading && ReadFrame !in actions
    ensures After(s, actions).handler == Reading
    decreases |actions|
  {
    if actions != [] {
      assert actions == [actions[0]] + actions[1..];
      TakenIsRead(Step(s, actions[0]), actions[1..]);
    }
  }

  /** At step `j` of a run: where the run stands before it and after it, and what is left. */
  lemma StepAt(s: State, actions: seq<Action>, j: nat)
    requires Run(s, actions) && j < |actions|
    ensures Run(s, actions[..j]) && Enabled(After(s, actions[..j]), actions[j])
    ensures var t := Step(After(s, actions[..j]), actions[j]);
      Run(t, actions[j + 1..]) && After(t, actions[j + 1..]) == After(s, actions)
  {
    hide Enabled, Step;
    var rest := actions[j..];
    assert actions[..j] + rest == actions;
    RunPrefix(s, actions[..j], rest);
    assert rest[0] == actions[j] && rest[1..] == actions[j + 1..];
  }

  lemma NoTakeAfter(s: State, actions: seq<Action>, i: nat, j: nat)
    requires Run(s, actions) && After(s, actions).handler != Reading && i < j < |actions| && NoReadAfter(actions, i)
    ensures TakeToken !in actions[j + 1..]
  {
    hide Run, After;
    if TakeToken in actions[j + 1..] {
      var k: nat :| k < |actions[j + 1..]| && actions[j + 1..][k] == TakeToken;
      var m := j + 1 + k;
      var later := actions[m + 1..];
      assert actions[m] == TakeToken;
      StepAt(s, actions, m);
      assert forall n :: 0 <= n < |later| ==> later[n] == actions[m + 1 + n];
      TakenIsRead(Step(After(s, actions[..m]), TakeToken), later);
      assert false;
    }
  }

  lemma NoReadWithoutTake(s: State, actions: seq<Action>, i: nat, j: nat)
    requires Run(s, actions) && i < j < |actions| && actions[j] == DropToken
    requires NoReadAfter(actions[..j], i) && TakeToken !in actions[j + 1..]
    ensures NoReadAfter(actions, i)
  {
    hide Run, After;
    StepAt(s, actions, j);
    var later := actions[j + 1..];
    NoTakeNoRead(Step(After(s, actions[..j]), DropToken), later);
    forall k | 0 <= k < |actions| && i < k
      ensures actions[k] != ReadFrame
    {
      if k < j {
        assert actions[..j][k] == actions[k];
      } else if k > j {
        assert later[k - j - 1] == actions[k];
      }
    }
  }

  lemma DroppedMeansDroppedLast(s: State, actions: seq<Action>)
    requires Run(s, actions) && After(s, actions).handler != Reading
    ensures DroppedUnread(actions) <==> DroppedLast(actions)
  {
    hide Run, After;
    if DroppedUnread(actions) {
      var i, j :| 0 <= i < j < |actions| && actions[i].Publish? && actions[j] == DropToken && NoReadAfter(actions, i);
      NoTakeAfter(s, actions, i, j);
      assert NoReadAfter(actions[..j], i);
    }
    if DroppedLast(actions) {
      var i, j :| 0 <= i < j < |actions| && actions[i].Publish? && actions[j] == DropToken
        && NoReadAfter(actions[..j], i) && TakeToken !in actions[j + 1..];
      NoReadWithoutTake(s, actions, i, j);
    }
  }

  /**
   * Exactly when the display is left stale: a run that has come to rest shows an old frame if and only if, after some
   * frame was published, an early exit dropped a token before any read of a frame, and no bottom half took one any more.
   */
  lemma StaleExactly(s: State, actions: seq<Action>)
    requires Initial(s) && Run(s, actions) && Quiescent(After(s, actions))
    ensures After(s, actions).seen < After(s, actions).published <==> DroppedLast(actions)
  {
    HistoryIsTrue(s, actions);
    FreshExactly(s, actions);
    DroppedMeansDroppedLast(s, actions);
  }

  // ----- an interleaving that leaves a stale frame -----

  lemma {:induction false} RunsConcatenate(s: State, a: seq<Action>, b: seq<Action>)
    requires Run(s, a) && Run(After(s, a), b)
    ensures Run(s, a + b) && After(s, a + b) == After(After(s, a), b)
    decreases |a|
  {
    if a == [] {
      assert a + b == b;
    } else {
      assert (a + b)[1..] == a[1..] + b;
      RunsConcatenate(Step(s, a[0]), a[1..], b);
    }
  }

  lemma ExtendByOne(s: State, run: seq<Action>, a: Action)
    requires Run(s, run) && Enabled(After(s, run), a)
    ensures Run(s, run + [a]) && After(s, run + [a]) == Step(After(s, run), a)
  {
    hide Run, After, Enabled, Step;
    OneStep(After(s, run), a);
    RunsConcatenate(s, run, [a]);
  }

  /** Three more enabled steps extend a run. */
  lemma Extend(s: State, run: seq<Action>, a: Action, b: Action, c: Action) returns (run': seq<Action>)
    requires Run(s, run) && Enabled(After(s, run), a) && Enabled(Step(After(s, run), a), b)
    requires Enabled(Step(Step(After(s, run), a), b), c)
    ensures Run(s, run') && After(s, run') == Step(Step(Step(After(s, run), a), b), c)
  {
    hide Run, After, Step, Enabled;
    ExtendByOne(s, run, a);
    ExtendByOne(s, run + [a], b);
    ExtendByOne(s, run + [a] + [b], c);
    run' := run + [a] + [b] + [c];
  }

  /** One render thread, everything at rest. */
  const RESTING := State(0, 0, Idle, [Outside], true, 0, 0, false)

  /** A call of the render thread while a bottom half is between its read of the counter and its read of the frame. */
  lemma CallWhileReading(s: State, run: seq<Action>) returns (run': seq<Action>)
    requires Run(s, run)
    requires var t := After(s, run);
      t.pending == 0 && t.handler == Reading && t.live && t.producers == [Outside]
    ensures Run(s, run')
    ensures var t := After(s, run);
      After(s, run') == t.(pending := 1, queued := t.queued + 1, published := t.published + 1)
  {
    hide Run, After;
    run' := Extend(s, run, Publish(0), FirstSwap(0), Schedule(0));
    assert [Outside][0 := Published][0 := MustSchedule][0 := Outside] == [Outside];
  }

  /** A notification that lands inside a bottom half schedules a second one, and the tail check a third. */
  lemma OverlappingCall(s: State, run: seq<Action>) returns (run': seq<Action>)
    requires Run(s, run)
    requires var t := After(s, run);
      t.pending == 1 && t.queued > 0 && t.handler == Idle && t.live && t.producers == [Outside]
    ensures Run(s, run')
    ensures var t, t' := After(s, run), After(s, run');
      t' == t.(queued := t.queued + 1, published := t.published + 1, seen := t.published + 1, lost := false)
  {
    hide Run, After;
    run' := Extend(s, run, StartHandler, ReadGuard, TakeToken);
    run' := CallWhileReading(s, run');
    run' := Extend(s, run', ReadFrame, ReadTail, Reschedule);
  }

  /**
   * A single render thread is enough for the system to come to rest on a frame that is not the last one published.
   * A bottom half left over from an overlapping call finds the counter at 0; the next frame raises it to 1 before the
   * second read of the early exit, which takes the token away without reading the frame.
   */
  lemma StaleFrameReachable() returns (run: seq<Action>)
    ensures Initial(RESTING) && Run(RESTING, run)
    ensures Quiescent(After(RESTING, run))
    ensures After(RESTING, run).seen < After(RESTING, run).published
  {
    run := Extend(RESTING, [], Publish(0), FirstSwap(0), Schedule(0));
    run := OverlappingCall(RESTING, run);
    run := Extend(RESTING, run, StartHandler, ReadGuard, TakeToken);
    run := Extend(RESTING, run, ReadFrame, ReadTail, StartHandler);
    run := Extend(RESTING, run, ReadGuard, Publish(0), FirstSwap(0));
    run := Extend(RESTING, run, ReadAgain, DropToken, Schedule(0));
    run := Extend(RESTING, run, StartHandler, ReadGuard, ReadAgain);
  }

  /** The cap on the counter does not cap the bottom halves: any number of them can be queued at once. */
  lemma {:induction false} UnboundedBottomHalves(n: nat) returns (run: seq<Action>)
    ensures Run(RESTING, run) && After(RESTING, run).queued == n + 1
    ensures var t := After(RESTING, run); t.pending == 1 && t.handler == Idle && t.live && t.producers == [Outside]
  {
    if n == 0 {
      run := Extend(RESTING, [], Publish(0), FirstSwap(0), Schedule(0));
    } else {
      run := UnboundedBottomHalves(n - 1);
      run := OverlappingCall(RESTING, run);
    }
  }

  // ----- notifications that do not overlap a bottom half -----

  function Count(producers: seq<Producer>, phase: Producer): nat {
    if producers == [] then 0
    else Count(producers[..|producers| - 1], phase) + (if producers[|producers| - 1] == phase then 1 else 0)
  }

  lemma {:induction false} CountUpdate(producers: seq<Producer>, p: nat, to: Producer, phase: Producer)
    requires p < |producers|
    ensures Count(producers[p := to], phase)
         == Count(producers, phase) - (if producers[p] == phase then 1 else 0) + (if to == phase then 1 else 0)
    decreases |producers|
  {
    var n := |producers| - 1;
    if p < n {
      assert producers[p := to][..n] == producers[..n][p := to];
      CountUpdate(producers[..n], p, to, phase);
    } else {
      assert producers[p := to][..n] == producers[..n];
    }
  }

  /** Bottom halves that exist and have not taken a token yet. */
  function Waiting(s: State): nat {
    s.queued + Count(s.producers, MustSchedule) + (if s.handler in {Entered, TakingToken, Rescheduling} then 1 else 0)
  }

  /** The counter is raised from 0 only while no bottom half is between its decrement and its tail check. */
  predicate NoOverlap(s: State, actions: seq<Action>)
    requires Run(s, actions)
    decreases |actions|
  {
    actions == [] ||
    (&& (actions[0].FirstSwap? && s.pending == 0 ==> s.handler !in {Reading, AtTail})
     && NoOverlap(Step(s, actions[0]), actions[1..]))
  }

  /** Exactly one bottom half per raised counter, and none that finds the counter at 0. */
  ghost predicate OneBottomHalf(s: State) {
    && s.handler !in {LeavingEarly, DroppingToken} && s.live && 0 <= s.pending
    && Waiting(s) == (if s.pending > 0 && s.handler !in {Reading, AtTail} then 1 else 0)
    && !s.lost
  }

  lemma StepKeepsOne(s: State, a: Action)
    requires OneBottomHalf(s) && Enabled(s, a)
    requires a.FirstSwap? && s.pending == 0 ==> s.handler !in {Reading, AtTail}
    ensures OneBottomHalf(Step(s, a)) && a != DropToken
  {
    if a.Publish? {
      CountUpdate(s.producers, a.p, Published, MustSchedule);
    } else if a.FirstSwap? {
      CountUpdate(s.producers, a.p, if s.pending == 0 then MustSchedule else FirstFailed, MustSchedule);
    } else if a.SecondSwap? || a.Schedule? {
      CountUpdate(s.producers, a.p, Outside, MustSchedule);
    }
  }

  lemma {:induction false} RunKeepsOne(s: State, actions: seq<Action>)
    requires OneBottomHalf(s) && Run(s, actions) && NoOverlap(s, actions)
    ensures OneBottomHalf(After(s, actions)) && DropFree(actions)
    decreases |actions|
  {
    if actions != [] {
      StepKeepsOne(s, actions[0]);
      RunKeepsOne(Step(s, actions[0]), actions[1..]);
      assert forall i :: 1 <= i < |actions| ==> actions[i] == actions[1..][i - 1];
    }
  }

  lemma {:induction false} NoneInPhase(producers: seq<Producer>, phase: Producer)
    requires phase != Outside && forall p :: 0 <= p < |producers| ==> producers[p] == Outside
    ensures Count(producers, phase) == 0
    decreases |producers|
  {
    if producers != [] {
      NoneInPhase(producers[..|producers| - 1], phase);
    }
  }

  /** In every state of a run at most one bottom half is waiting. */
  predicate AtMostOneWaiting(s: State, actions: seq<Action>)
    requires Run(s, actions)
    decreases |actions|
  {
    Waiting(s) <= 1 && (actions == [] || AtMostOneWaiting(Step(s, actions[0]), actions[1..]))
  }

  lemma {:induction false} OneWaiting(s: State, actions: seq<Action>)
    requires OneBottomHalf(s) && Run(s, actions) && NoOverlap(s, actions)
    ensures AtMostOneWaiting(s, actions)
    decreases |actions|
  {
    hide Step;
    if actions != [] {
      StepKeepsOne(s, actions[0]);
      OneWaiting(Step(s, actions[0]), actions[1..]);
    }
  }

  /** A bottom half that will find the counter raised at its tail check, while another one is scheduled or about to be. */
  ghost predicate BoundToOverlap(s: State) {
    s.handler in {Reading, AtTail} && s.pending > 0 && s.queued + Count(s.producers, MustSchedule) > 0
  }

  lemma OverlapLingers(s: State, a: Action)
    requires BoundToOverlap(s) && Enabled(s, a)
    ensures BoundToOverlap(Step(s, a)) || Waiting(Step(s, a)) > 1
  {
    if a.Publish? {
      CountUpdate(s.producers, a.p, Published, MustSchedule);
    } else if a.FirstSwap? {
      CountUpdate(s.producers, a.p, FirstFailed, MustSchedule);
    } else if a.SecondSwap? || a.Schedule? {
      CountUpdate(s.producers, a.p, Outside, MustSchedule);
    }
  }

  lemma {:induction false} OverlapShows(s: State, actions: seq<Action>)
    requires BoundToOverlap(s) && Run(s, actions) && After(s, actions).handler !in {Reading, AtTail}
    ensures !AtMostOneWaiting(s, actions)
    decreases |actions|
  {
    hide Step, Waiting;
    if actions != [] {
      OverlapLingers(s, actions[0]);
      if BoundToOverlap(Step(s, actions[0])) {
        OverlapShows(Step(s, actions[0]), actions[1..]);
      }
    }
  }

  lemma {:induction false} OneWaitingOnlySo(s: State, actions: seq<Action>)
    requires Run(s, actions) && After(s, actions).handler !in {Reading, AtTail} && AtMostOneWaiting(s, actions)
    ensures NoOverlap(s, actions)
    decreases |actions|
  {
    hide Waiting;
    if actions != [] {
      if actions[0].FirstSwap? && s.pending == 0 && s.handler in {Reading, AtTail} {
        CountUpdate(s.producers, actions[0].p, MustSchedule, MustSchedule);
        OverlapShows(Step(s, actions[0]), actions[1..]);
        assert false;
      }
      OneWaitingOnlySo(Step(s, actions[0]), actions[1..]);
    }
  }

  lemma InitialHasNone(s: State)
    requires Initial(s)
    ensures OneBottomHalf(s)
  {
    NoneInPhase(s.producers, MustSchedule);
  }

  /**
   * Exactly when there is one bottom half at a time: over any run that does not end inside a bottom half, never more
   * than one is waiting if and only if no notification raises the counter from 0 inside a bottom half.
   */
  lemma OneBottomHalfExactly(s: State, actions: seq<Action>)
    requires Initial(s) && Run(s, actions) && After(s, actions).handler !in {Reading, AtTail}
    ensures AtMostOneWaiting(s, actions) <==> NoOverlap(s, actions)
  {
    InitialHasNone(s);
    if NoOverlap(s, actions) {
      OneWaiting(s, actions);
    }
    if AtMostOneWaiting(s, actions) {
      OneWaitingOnlySo(s, actions);
    }
  }

  /**
   * If no notification raises the counter inside a bottom half, then at most one bottom half is ever waiting, no token
   * is dropped, and the system always comes to rest on the last frame.
   */
  lemma FreshWithoutOverlap(s: State, actions: seq<Action>)
    requires Initial(s) && Run(s, actions) && NoOverlap(s, actions)
    ensures Waiting(After(s, actions)) <= 1 && DropFree(actions)
    ensures Quiescent(After(s, actions)) ==> After(s, actions).seen == After(s, actions).published
  {
    InitialHasNone(s);
    RunKeepsOne(s, actions);
    if Quiescent(After(s, actions)) {
      FreshWithoutDrops(s, actions);
    }
  }

  // ----- bursts of notifications -----

  predicate AllOutside(s: State) {
    forall p :: 0 <= p < |s.producers| ==> s.producers[p] == Outside
  }

  /** Steps of the render threads only: no bottom half runs in between. */
  predicate ByProducers(actions: seq<Action>) {
    forall i :: 0 <= i < |actions| ==>
      actions[i].Publish? || actions[i].FirstSwap? || actions[i].SecondSwap? || actions[i].Schedule?
  }

  predicate NothingPublished(actions: seq<Action>) {
    forall i :: 0 <= i < |actions| ==> !actions[i].Publish?
  }

  function Publications(actions: seq<Action>): nat {
    if actions == [] then 0 else (if actions[0].Publish? then 1 else 0) + Publications(actions[1..])
  }

  function FramesRead(actions: seq<Action>): nat {
    if actions == [] then 0 else (if actions[0] == ReadFrame then 1 else 0) + FramesRead(actions[1..])
  }

  /**
   * The counter and the queue, `n` publications after a counter of 0 with `queued` bottom halves: one call has raised
   * the counter to 1 and schedules, one of the calls that then failed to do so has raised it to 2.
   */
  ghost predicate Booked(s: State, queued: nat, n: nat) {
    var swapped := n - Count(s.producers, Published);
    var failed, must := Count(s.producers, FirstFailed), Count(s.producers, MustSchedule);
    && swapped >= 0 && (if swapped == 0 then failed == 0 else swapped - failed >= 1)
    && s.pending == (if swapped == 0 then 0 else if swapped - failed == 1 then 1 else 2)
    && s.queued + must == queued + (if swapped == 0 then 0 else 1)
  }

  lemma StepKeepsBooks(s: State, queued: nat, n: nat, a: Action)
    requires Booked(s, queued, n) && Enabled(s, a) && ByProducers([a])
    ensures Booked(Step(s, a), queued, n + if a.Publish? then 1 else 0)
    ensures Step(s, a).handler == s.handler && Step(s, a).live == s.live && Step(s, a).lost == s.lost
  {
    assert [a][0] == a;
    var to := Step(s, a).producers[a.p];
    CountUpdate(s.producers, a.p, to, Published);
    CountUpdate(s.producers, a.p, to, FirstFailed);
    CountUpdate(s.producers, a.p, to, MustSchedule);
  }

  lemma {:induction false} RunKeepsBooks(s: State, queued: nat, n: nat, actions: seq<Action>)
    requires Booked(s, queued, n) && Run(s, actions) && ByProducers(actions)
    ensures Booked(After(s, actions), queued, n + Publications(actions))
    ensures var s' := After(s, actions); s'.handler == s.handler && s'.live == s.live && s'.lost == s.lost
    decreases |actions|
  {
    hide Booked, Step, Enabled;
    if actions != [] {
      assert ByProducers([actions[0]]);
      StepKeepsBooks(s, queued, n, actions[0]);
      RunKeepsBooks(Step(s, actions[0]), queued, n + (if actions[0].Publish? then 1 else 0), actions[1..]);
    }
  }

  /**
   * Notifications coalesce. Calls of any number of render threads, interleaved in any way but with no bottom half in
   * between, starting from a counter of 0: one call leaves it at 1, two or more at 2, and together they schedule one
   * bottom half.
   */
  lemma NotificationsCoalesce(s: State, actions: seq<Action>)
    requires s.pending == 0 && AllOutside(s) && Run(s, actions) && ByProducers(actions) && AllOutside(After(s, actions))
    ensures var s', n := After(s, actions), Publications(actions);
      && s'.pending == (if n < 2 then n else 2)
      && s'.queued == s.queued + (if n < 1 then 0 else 1)
      && s'.handler == s.handler && s'.live == s.live && s'.lost == s.lost
  {
    hide Run, After;
    forall phase: Producer | phase != Outside
      ensures Count(s.producers, phase) == 0 && Count(After(s, actions).producers, phase) == 0
    {
      NoneInPhase(s.producers, phase);
      NoneInPhase(After(s, actions).producers, phase);
    }
    RunKeepsBooks(s, s.queued, 0, actions);
  }

  /** With no further frame, one bottom half at a time reads exactly once for every token. */
  lemma {:induction false} ReadsAreTokens(s: State, actions: seq<Action>)
    requires OneBottomHalf(s) && AllOutside(s) && Run(s, actions) && NothingPublished(actions)
    requires Quiescent(After(s, actions))
    ensures FramesRead(actions) == s.pending + if s.handler == Reading then 1 else 0
    decreases |actions|
  {
    hide Waiting;
    if actions == [] {
      RestHasNoToken(s);
    } else {
      assert !actions[0].Publish?;
      StepKeepsOne(s, actions[0]);
      ReadsAreTokens(Step(s, actions[0]), actions[1..]);
    }
  }

  lemma RestHasNoToken(s: State)
    requires OneBottomHalf(s) && Quiescent(s)
    ensures s.pending == 0
  {
    NoneInPhase(s.producers, MustSchedule);
  }

  /**
   * So a burst of frames from rest is read once if it was one frame and exactly twice if it was more, in every
   * interleaving of the burst and of what follows, if no further frame comes.
   */
  lemma BurstIsRead(s: State, burst: seq<Action>, later: seq<Action>)
    requires Quiescent(s) && s.pending == 0 && s.live && !s.lost
    requires Run(s, burst) && ByProducers(burst) && AllOutside(After(s, burst))
    requires Run(After(s, burst), later) && NothingPublished(later) && Quiescent(After(After(s, burst), later))
    ensures FramesRead(later) == if Publications(burst) < 2 then Publications(burst) else 2
  {
    hide Run, After, FramesRead, Publications;
    NotificationsCoalesce(s, burst);
    NoneInPhase(After(s, burst).producers, MustSchedule);
    ReadsAreTokens(After(s, burst), later);
  }

  // ----- the system comes to rest -----

  function ProducerWeight(p: Producer): nat {
    match p case Outside => 0 case Published => 12 case FirstFailed => 7 case MustSchedule => 5
  }

  function HandlerWeight(h: Handler): nat {
    match h
    case Idle => 0
    case Entered => 3
    case LeavingEarly => 2
    case DroppingToken => 1
    case TakingToken => 2
    case Reading => 7
    case AtTail => 6
    case Rescheduling => 5
  }

  function Weights(producers: seq<Producer>): nat {
    if producers == [] then 0
    else Weights(producers[..|producers| - 1]) + ProducerWeight(producers[|producers| - 1])
  }

  lemma {:induction false} WeightsUpdate(producers: seq<Producer>, p: nat, to: Producer)
    requires p < |producers|
    ensures Weights(producers[p := to]) == Weights(producers) - ProducerWeight(producers[p]) + ProducerWeight(to)
    decreases |producers|
  {
    var n := |producers| - 1;
    if p < n {
      assert producers[p := to][..n] == producers[..n][p := to];
      WeightsUpdate(producers[..n], p, to);
    } else {
      assert producers[p := to][..n] == producers[..n];
    }
  }

  function WorkLeft(s: State): int {
    6 * s.pending + 4 * s.queued + HandlerWeight(s.handler) + Weights(s.producers)
  }

  lemma StepDoesWork(s: State, a: Action)
    requires Invariant(s) && Enabled(s, a) && !a.Publish?
    ensures 0 <= WorkLeft(Step(s, a)) < WorkLeft(s)
  {
    StepKeepsInvariant(s, a);
    if a.FirstSwap? {
      WeightsUpdate(s.producers, a.p, if s.pending == 0 then MustSchedule else FirstFailed);
    } else if a.SecondSwap? || a.Schedule? {
      WeightsUpdate(s.producers, a.p, Outside);
    }
  }

  lemma SomethingToDo(s: State) returns (a: Action)
    requires !Quiescent(s)
    ensures Enabled(s, a) && !a.Publish?
  {
    if s.handler == Idle && s.queued == 0 {
      var p :| 0 <= p < |s.producers| && s.producers[p] != Outside;
      a := match s.producers[p] case Published => FirstSwap(p) case FirstFailed => SecondSwap(p) case _ => Schedule(p);
    } else {
      a := match s.handler
        case Idle => StartHandler
        case Entered => ReadGuard
        case LeavingEarly => ReadAgain
        case DroppingToken => DropToken
        case TakingToken => TakeToken
        case Reading => ReadFrame
        case AtTail => ReadTail
        case Rescheduling => Reschedule;
    }
  }

  /** Without new frames no run goes on for ever, although bottom halves reschedule themselves. */
  lemma {:induction false} RunsAreBounded(s: State, actions: seq<Action>)
    requires Invariant(s) && Run(s, actions) && NothingPublished(actions)
    ensures |actions| <= WorkLeft(s) - WorkLeft(After(s, actions)) <= WorkLeft(s)
    decreases |actions|
  {
    if actions == [] {
      WorkIsPositive(s);
    } else {
      StepDoesWork(s, actions[0]);
      StepKeepsInvariant(s, actions[0]);
      RunsAreBounded(Step(s, actions[0]), actions[1..]);
    }
  }

  lemma WorkIsPositive(s: State)
    requires Invariant(s)
    ensures WorkLeft(s) >= 0
  {
  }

  /** And whenever nothing is left to do the system is at rest, so from every reachable state it gets there. */
  lemma {:induction false} RestIsReached(s: State) returns (actions: seq<Action>)
    requires Invariant(s)
    ensures Run(s, actions) && NothingPublished(actions) && Quiescent(After(s, actions))
    decreases WorkLeft(s)
  {
    if Quiescent(s) {
      actions := [];
    } else {
      var a := SomethingToDo(s);
      StepDoesWork(s, a);
      StepKeepsInvariant(s, a);
      var rest := RestIsReached(Step(s, a));
      actions := [a] + rest;
      assert actions[1..] == rest;
    }
  }

  // ----- teardown -----

  /** Without a display nothing is read and nothing reschedules itself, whatever the counter says. */
  lemma {:induction false} NoDisplayNoRead(s: State, actions: seq<Action>)
    requires !s.live && s.handler in {Idle, Entered, LeavingEarly, DroppingToken} && Run(s, actions)
    ensures forall i :: 0 <= i < |actions| ==> actions[i] !in {TakeToken, ReadFrame, ReadTail, Reschedule}
    ensures After(s, actions).seen == s.seen
    decreases |actions|
  {
    if actions != [] {
      NoDisplayNoRead(Step(s, actions[0]), actions[1..]);
      assert forall i :: 1 <= i < |actions| ==> actions[i] == actions[1..][i - 1];
    }
  }

  /** `apple_gfx_pci_unrealize` after the library is freed: no display, and the counter reset. */
  function TornDown(s: State): State {
    s.(live := false, pending := 0)
  }

  function DrainLeft(s: State): nat {
    3 * s.queued + (match s.handler case Entered => 2 case LeavingEarly => 1 case _ => 0)
  }

  /**
   * After teardown, with every callback returned, the bottom halves still queued drain in three steps each: none of
   * them touches the display, drops a token or schedules another.
   */
  lemma {:induction false} TeardownDrains(s: State, actions: seq<Action>)
    requires s.handler in {Idle, Entered, LeavingEarly} && s == TornDown(s)
    requires forall p :: 0 <= p < |s.producers| ==> s.producers[p] == Outside
    requires Run(s, actions) && NothingPublished(actions)
    ensures forall i :: 0 <= i < |actions| ==> actions[i] in {StartHandler, ReadGuard, ReadAgain}
    ensures DrainLeft(After(s, actions)) == DrainLeft(s) - |actions|
    ensures After(s, actions).seen == s.seen && After(s, actions).pending == 0
    decreases |actions|
  {
    if actions != [] {
      assert !actions[0].Publish?;
      TeardownDrains(Step(s, actions[0]), actions[1..]);
      assert forall i :: 1 <= i < |actions| ==> actions[i] == actions[1..][i - 1];
    }
  }
}
