/** The Mighty Mouse: motion accumulated per axis and drained in clamped reports (hw/usb/dev-hid.c). */
module Mouse {
  import opened Words
  import opened Rings
  import opened Usb

  const QUEUE_DEPTH := 64
  const CAPACITY := 63
  const MAX_REPORTS := 64  // reports of one sync

  // ----- motion -----

  /** One number for each axis a report carries. */
  datatype Motion = Motion(x: int, y: int, wheel: int, hwheel: int) {
    function Plus(m: Motion): Motion {
      Motion(x + m.x, y + m.y, wheel + m.wheel, hwheel + m.hwheel)
    }

    function Minus(m: Motion): Motion {
      Motion(x - m.x, y - m.y, wheel - m.wheel, hwheel - m.hwheel)
    }

    /** Stored into the four `int32_t` accumulators. */
    function Stored(): Motion {
      Motion(Signed32(x), Signed32(y), Signed32(wheel), Signed32(hwheel))
    }

    predicate InRange() {
      Stored() == this
    }

    function Clamped(): Motion {
      Motion(Clamp(x), Clamp(y), Clamp(wheel), Clamp(hwheel))
    }

    /** What `n` clamped reports leave over. */
    function Left(n: nat): Motion {
      Motion(LeftOver(x, n), LeftOver(y, n), LeftOver(wheel, n), LeftOver(hwheel, n))
    }

    function Largest(): nat {
      Max(Max(Abs(x), Abs(y)), Max(Abs(wheel), Abs(hwheel)))
    }
  }

  const ZERO := Motion(0, 0, 0, 0)

  function Abs(i: int): nat {
    if i < 0 then -i else i
  }

  function Max(a: nat, b: nat): nat {
    if a < b then b else a
  }

  /** The sign stays, and the magnitude shrinks by 127 for each report until it reaches 0. */
  function LeftOver(v: int, n: nat): int {
    if v >= 0 then (if v <= 127 * n then 0 else v - 127 * n) else (if -v <= 127 * n then 0 else v + 127 * n)
  }

  function Sum(ms: seq<Motion>): Motion {
    if ms == [] then ZERO else Sum(ms[..|ms| - 1]).Plus(ms[|ms| - 1])
  }

  lemma {:induction false} SumConcat(a: seq<Motion>, b: seq<Motion>)
    ensures Sum(a + b) == Sum(a).Plus(Sum(b))
    decreases |b|
  {
    if b == [] {
      assert a + b == a;
    } else {
      var n := |b| - 1;
      assert (a + b)[..|a| + n] == a + b[..n];
      SumConcat(a, b[..n]);
    }
  }

  // ----- the device as a value -----

  /** The five bytes of a boot-mouse report: button mask, and the four displacements. */
  datatype Report = Report(buttons: nat, motion: Motion)

  datatype Buttons = Buttons(left: bool, right: bool, middle: bool) {
    function Mask(): nat {
      (if left then 1 else 0) + (if right then 2 else 0) + (if middle then 4 else 0)
    }
  }

  datatype Axis = X | Y | OtherAxis

  datatype Button = Left | Right | Middle | WheelUp | WheelDown | WheelLeft | WheelRight | OtherButton

  datatype Event = Relative(axis: Axis, value: int) | Absolute(axis: Axis, value: int) | Press(button: Button, down: bool)

  /** `lastX` and `lastY` are the scaled positions of the last absolute events, or -1. */
  datatype Device = Device(pending: Motion, buttons: Buttons, event: bool, lastX: int, lastY: int, queue: seq<Report>) {
    predicate Valid() {
      |queue| <= CAPACITY && pending.InRange()
    }
  }

  const FRESH := Device(ZERO, Buttons(false, false, false), false, -1, -1, [])

  /** An absolute position on an axis of `pixels` pixels. */
  function Scaled(value: int, pixels: nat): int {
    Signed32(Quotient(value * pixels, 0x7fff))
  }

  /** What an event adds to the accumulators, before it is stored in 32 bits. */
  function Input(d: Device, e: Event): Motion {
    match e
    case Relative(X, v) => Motion(v, 0, 0, 0)
    case Relative(Y, v) => Motion(0, v, 0, 0)
    case Absolute(X, v) => if d.lastX >= 0 then Motion(Scaled(v, 1920) - d.lastX, 0, 0, 0) else ZERO
    case Absolute(Y, v) => if d.lastY >= 0 then Motion(0, Scaled(v, 1080) - d.lastY, 0, 0) else ZERO
    case Press(WheelUp, true) => Motion(0, 0, 1, 0)
    case Press(WheelDown, true) => Motion(0, 0, -1, 0)
    case Press(WheelLeft, true) => Motion(0, 0, 0, -1)
    case Press(WheelRight, true) => Motion(0, 0, 0, 1)
    case _ => ZERO
  }

  /** Every event asks for a report, except wheel buttons released and buttons the mouse does not have. */
  predicate Notices(e: Event) {
    match e
    case Press(Left, _) => true
    case Press(Right, _) => true
    case Press(Middle, _) => true
    case Press(OtherButton, _) => false
    case Press(_, down) => down
    case _ => true
  }

  function ButtonsAfter(b: Buttons, e: Event): Buttons {
    match e
    case Press(Left, down) => b.(left := down)
    case Press(Right, down) => b.(right := down)
    case Press(Middle, down) => b.(middle := down)
    case _ => b
  }

  function HandleEvent(d: Device, e: Event): Device {
    d.(pending := d.pending.Plus(Input(d, e)).Stored(),
       buttons := ButtonsAfter(d.buttons, e),
       event := d.event || Notices(e),
       lastX := if e.Absolute? && e.axis == X then Scaled(e.value, 1920) else d.lastX,
       lastY := if e.Absolute? && e.axis == Y then Scaled(e.value, 1080) else d.lastY)
  }

  /** The displacements of the reports that one sync sends for `pending`, with `n` reports still allowed. */
  function Chunks(pending: Motion, n: nat): (c: seq<Motion>)
    requires n > 0
    ensures 0 < |c| <= n
    decreases n
  {
    var first := pending.Clamped();
    if pending.Minus(first) != ZERO && n > 1 then [first] + Chunks(pending.Minus(first), n - 1) else [first]
  }

  function Reports(buttons: Buttons, motions: seq<Motion>): (r: seq<Report>)
    ensures |r| == |motions|
  {
    seq(|motions|, i requires 0 <= i < |motions| => Report(buttons.Mask(), motions[i]))
  }

  /** `amt_input_sync`. */
  function Sync(d: Device): Device
    requires d.Valid()
  {
    if !d.event then d
    else
      var chunks := Chunks(d.pending, MAX_REPORTS);
      d.(event := false,
         pending := d.pending.Minus(Sum(chunks)),
         queue := PushAll(d.queue, CAPACITY, Reports(d.buttons, chunks)))
  }

  /** One report: a clamped part of every accumulator moves into the queue. */
  function Emit(d: Device): Device
    requires |d.queue| <= CAPACITY
  {
    var chunk := d.pending.Clamped();
    d.(pending := d.pending.Minus(chunk), queue := Push(d.queue, CAPACITY, Report(d.buttons.Mask(), chunk)))
  }

  /** The device in the middle of a sync, when the reports `sent` have gone out. */
  function Midway(d: Device, sent: seq<Motion>): (d': Device)
    requires |d.queue| <= CAPACITY
    ensures |d'.queue| <= CAPACITY
  {
    d.(event := false, pending := d.pending.Minus(Sum(sent)), queue := PushAll(d.queue, CAPACITY, Reports(d.buttons, sent)))
  }

  /** The reports of a sync are the ones emitted one by one until nothing is pending or the limit is reached. */
  lemma EmitContinues(d: Device, sent: seq<Motion>, n: nat)
    requires |d.queue| <= CAPACITY && 0 < n
    ensures var mid := Midway(d, sent);
      var chunk := mid.pending.Clamped();
      && Emit(mid) == Midway(d, sent + [chunk])
      && Chunks(mid.pending, n) ==
           [chunk] + (if Emit(mid).pending != ZERO && n > 1 then Chunks(Emit(mid).pending, n - 1) else [])
  {
    hide Push, PushAll, Motion.Clamped;
    var chunk := Midway(d, sent).pending.Clamped();
    PushAllOneMore(d.queue, CAPACITY, Reports(d.buttons, sent), Report(d.buttons.Mask(), chunk));
    assert Reports(d.buttons, sent + [chunk]) == Reports(d.buttons, sent) + [Report(d.buttons.Mask(), chunk)];
    assert (sent + [chunk])[..|sent|] == sent;
  }

  // ----- the drain of one sync -----

  /** Reports needed for a magnitude: one for every 127, and at least one. */
  function Needed(magnitude: nat): nat {
    if magnitude == 0 then 1 else (magnitude + 126) / 127
  }

  lemma LargestShrinks(p: Motion)
    ensures p.Minus(p.Clamped()) == p.Left(1)
    ensures p.Left(1).Largest() == if p.Largest() <= 127 then 0 else p.Largest() - 127
    ensures p.Left(1) == ZERO <==> p.Largest() <= 127
  {
    hide LeftOver, Clamp, Abs;
    AxisShrinks(p.x);
    AxisShrinks(p.y);
    AxisShrinks(p.wheel);
    AxisShrinks(p.hwheel);
    LeftBounds(p, 1);
  }

  lemma AxisShrinks(v: int)
    ensures v - Clamp(v) == LeftOver(v, 1)
    ensures LeftOver(v, 1) == 0 <==> Abs(v) <= 127
  {
  }

  /**
   * A sync sends as many reports as the largest pending magnitude needs, but at least one and at most the number
   * allowed; every axis keeps what that many clamped steps leave of it.
   */
  lemma {:induction false} DrainBound(p: Motion, n: nat)
    requires n > 0
    ensures |Chunks(p, n)| == if Needed(p.Largest()) <= n then Needed(p.Largest()) else n
    ensures p.Minus(Sum(Chunks(p, n))) == p.Left(|Chunks(p, n)|)
    decreases n
  {
    hide Motion.Left, Motion.Largest, Clamp, LeftOver;
    var first := p.Clamped();
    LargestShrinks(p);
    if p.Left(1) != ZERO && n > 1 {
      var rest := Chunks(p.Left(1), n - 1);
      DrainBound(p.Left(1), n - 1);
      SumConcat([first], rest);
      SumOne(first);
      LeftTwice(p, |rest|);
    } else {
      SumOne(first);
    }
  }

  predicate FitsReport(m: Motion) {
    -127 <= m.x <= 127 && -127 <= m.y <= 127 && -127 <= m.wheel <= 127 && -127 <= m.hwheel <= 127
  }

  /** And every report carries what fits its signed bytes. */
  lemma {:induction false} ChunksFit(p: Motion, n: nat)
    requires n > 0
    ensures forall m :: m in Chunks(p, n) ==> FitsReport(m)
    decreases n
  {
    hide Clamp;
    var first := p.Clamped();
    if p.Minus(first) != ZERO && n > 1 {
      ChunksFit(p.Minus(first), n - 1);
    }
  }

  lemma SumOne(m: Motion)
    ensures Sum([m]) == m
  {
    assert [m][..0] == [];
  }

  lemma LeftTwice(p: Motion, n: nat)
    ensures p.Left(1).Left(n) == p.Left(n + 1)
  {
  }

  lemma LeftOverBounds(v: int, n: nat)
    ensures Abs(LeftOver(v, n)) == if Abs(v) <= 127 * n then 0 else Abs(v) - 127 * n
    ensures LeftOver(v, n) != 0 ==> (LeftOver(v, n) > 0 <==> v > 0)
  {
  }

  lemma LeftBounds(p: Motion, n: nat)
    ensures p.Left(n).Largest() == if p.Largest() <= 127 * n then 0 else p.Largest() - 127 * n
    ensures p.Largest() <= 127 * n ==> p.Left(n) == ZERO
  {
    hide LeftOver;
    LeftOverBounds(p.x, n);
    LeftOverBounds(p.y, n);
    LeftOverBounds(p.wheel, n);
    LeftOverBounds(p.hwheel, n);
  }

  lemma LeftInRange(p: Motion, n: nat)
    requires p.InRange()
    ensures p.Left(n).InRange()
  {
    hide LeftOver;
    LeftOverBounds(p.x, n);
    LeftOverBounds(p.y, n);
    LeftOverBounds(p.wheel, n);
    LeftOverBounds(p.hwheel, n);
  }

  /** In particular every axis of magnitude at most 64 * 127 is drained, and a larger one keeps the excess, with its sign. */
  lemma SyncDrains(d: Device)
    requires d.Valid() && d.event
    ensures Sync(d).pending == d.pending.Left(|Chunks(d.pending, MAX_REPORTS)|)
    ensures d.pending.Largest() <= 64 * 127 ==>
      Sync(d).pending == ZERO && |Chunks(d.pending, MAX_REPORTS)| == Needed(d.pending.Largest())
    ensures d.pending.Largest() > 64 * 127 ==>
      Sync(d).pending == d.pending.Left(64) && Sync(d).pending.Largest() == d.pending.Largest() - 64 * 127
    ensures Sync(d).Valid()
  {
    hide Motion.Left, Motion.Largest, Motion.InRange;
    DrainBound(d.pending, MAX_REPORTS);
    LeftBounds(d.pending, |Chunks(d.pending, MAX_REPORTS)|);
    LeftInRange(d.pending, |Chunks(d.pending, MAX_REPORTS)|);
  }

  // ----- histories since reset -----

  datatype Operation = Happens(event: Event) | Synchronise | Poll

  /**
   * The device with its books: everything the input asked for, everything the host received, everything lost when the
   * queue was full, and what 32-bit storage has cut off (always whole turns of 2^32).
   */
  datatype History = History(device: Device, input: Motion, delivered: Motion, dropped: Motion, overflow: Motion)

  function Motions(reports: seq<Report>): (m: seq<Motion>)
    ensures |m| == |reports|
  {
    seq(|reports|, i requires 0 <= i < |reports| => reports[i].motion)
  }

  /** `usb_apple_magic_tablet_handle_data` on the interrupt endpoint: the oldest report, or a NAK. */
  function Polled(d: Device): Device {
    if d.queue == [] then d else d.(queue := d.queue[1..])
  }

  /** The reports that a sync pushes out of the queue. */
  function SyncLoses(d: Device): seq<Report>
    requires d.Valid()
  {
    if d.event then LostAll(d.queue, CAPACITY, Reports(d.buttons, Chunks(d.pending, MAX_REPORTS))) else []
  }

  /**
   * A report is dropped only when 63 are queued: a sync loses exactly the oldest ones, as many as do not fit beside
   * the reports it sends, whose number `DrainBound` gives.
   */
  lemma DropsExactly(d: Device)
    requires d.Valid() && d.event
    ensures var reports := Reports(d.buttons, Chunks(d.pending, MAX_REPORTS));
      var lost, excess := SyncLoses(d), |d.queue| + |reports| - 63;
      && |reports| == (if Needed(d.pending.Largest()) <= 64 then Needed(d.pending.Largest()) else 64)
      && |lost| == (if excess > 0 then excess else 0)
      && lost == (d.queue + reports)[..|lost|]
      && Sync(d).queue == (d.queue + reports)[|lost|..]
  {
    hide Needed, Motion.Largest, Motion.InRange, LostAll, PushAll, Chunks;
    var reports := Reports(d.buttons, Chunks(d.pending, MAX_REPORTS));
    DrainBound(d.pending, MAX_REPORTS);
    LostExactly(d.queue, CAPACITY, reports);
    PushAllKeepsOrder(d.queue, CAPACITY, reports);
    var lost := LostAll(d.queue, CAPACITY, reports);
    assert (lost + Sync(d).queue)[|lost|..] == Sync(d).queue;
  }

  function Step(h: History, op: Operation): History
    requires h.device.Valid()
  {
    var d := h.device;
    match op
    case Happens(e) =>
      var wanted := d.pending.Plus(Input(d, e));
      h.(device := HandleEvent(d, e), input := h.input.Plus(Input(d, e)), overflow := h.overflow.Plus(wanted.Minus(wanted.Stored())))
    case Synchronise =>
      h.(device := Sync(d), dropped := h.dropped.Plus(Sum(Motions(SyncLoses(d)))))
    case Poll =>
      h.(device := Polled(d), delivered := if d.queue == [] then h.delivered else h.delivered.Plus(d.queue[0].motion))
  }

  predicate WholeTurns(m: Motion) {
    m.x % TWO_32 == 0 && m.y % TWO_32 == 0 && m.wheel % TWO_32 == 0 && m.hwheel % TWO_32 == 0
  }

  /** Where motion can be: delivered, dropped, queued or still pending. */
  function Accounted(h: History): Motion {
    h.delivered.Plus(h.dropped).Plus(Sum(Motions(h.device.queue))).Plus(h.device.pending)
  }

  /** The books balance on every axis. */
  predicate Balanced(h: History) {
    && h.device.Valid()
    && h.input == Accounted(h).Plus(h.overflow)
    && WholeTurns(h.overflow)
  }

  lemma MotionsConcat(a: seq<Report>, b: seq<Report>)
    ensures Motions(a + b) == Motions(a) + Motions(b)
  {
  }

  lemma StoredTurns(m: Motion)
    ensures WholeTurns(m.Minus(m.Stored())) && m.Stored().InRange()
  {
    hide Signed32, Wrap32;
    TurnsCut(m.x);
    TurnsCut(m.y);
    TurnsCut(m.wheel);
    TurnsCut(m.hwheel);
  }

  lemma TurnsCut(i: int)
    ensures (i - Signed32(i)) % TWO_32 == 0 && Signed32(Signed32(i)) == Signed32(i)
  {
    hide Signed32, Wrap32;
    var k := (Signed32(i) - i) / TWO_32;
    assert i - Signed32(i) == TWO_32 * (-k) + 0;
  }

  lemma TurnsAdd(a: Motion, b: Motion)
    requires WholeTurns(a) && WholeTurns(b)
    ensures WholeTurns(a.Plus(b))
  {
  }

  lemma EventBalances(h: History, e: Event)
    requires Balanced(h)
    ensures Balanced(Step(h, Happens(e)))
  {
    hide Input, Sum, Motion.InRange, Motion.Stored, WholeTurns;
    var wanted := h.device.pending.Plus(Input(h.device, e));
    StoredTurns(wanted);
    TurnsAdd(h.overflow, wanted.Minus(wanted.Stored()));
  }

  lemma SyncBalances(h: History)
    requires Balanced(h)
    ensures Balanced(Step(h, Synchronise))
  {
    hide Sum, Motion.InRange, WholeTurns, Chunks, PushAll, LostAll, Motion.Left, Motion.Largest, Push;
    var d := h.device;
    if d.event {
      var chunks := Chunks(d.pending, MAX_REPORTS);
      var reports := Reports(d.buttons, chunks);
      var lost, queue := LostAll(d.queue, CAPACITY, reports), PushAll(d.queue, CAPACITY, reports);
      SyncDrains(d);
      PushAllKeepsOrder(d.queue, CAPACITY, reports);
      MotionsConcat(lost, queue);
      MotionsConcat(d.queue, reports);
      SumConcat(Motions(lost), Motions(queue));
      SumConcat(Motions(d.queue), Motions(reports));
      assert Motions(reports) == chunks;
    } else {
      SumNone();
    }
  }

  lemma SumNone()
    ensures Sum(Motions([])) == ZERO
  {
  }

  lemma PollBalances(h: History)
    requires Balanced(h)
    ensures Balanced(Step(h, Poll))
  {
    hide Sum, Motion.InRange, WholeTurns;
    var q := h.device.queue;
    if q != [] {
      assert Motions(q) == [q[0].motion] + Motions(q[1..]);
      SumConcat([q[0].motion], Motions(q[1..]));
      SumOne(q[0].motion);
    }
  }

  function After(h: History, ops: seq<Operation>): History
    requires Balanced(h)
    ensures Balanced(After(h, ops))
    decreases |ops|
  {
    if ops == [] then h
    else
      StepBalances(h, ops[0]);
      After(Step(h, ops[0]), ops[1..])
  }

  lemma StepBalances(h: History, op: Operation)
    requires Balanced(h)
    ensures Balanced(Step(h, op))
  {
    match op
    case Happens(e) => EventBalances(h, e);
    case Synchronise => SyncBalances(h);
    case Poll => PollBalances(h);
  }

  const AFTER_RESET := History(FRESH, ZERO, ZERO, ZERO, ZERO)

  lemma ResetBalances()
    ensures Balanced(AFTER_RESET)
  {
    SumNone();
  }

  /** No event pushes an accumulator out of 32 bits. */
  predicate NoOverflow(h: History, ops: seq<Operation>)
    requires Balanced(h)
    decreases |ops|
  {
    ops == [] ||
    (&& (ops[0].Happens? ==> h.device.pending.Plus(Input(h.device, ops[0].event)).InRange())
     && (StepBalances(h, ops[0]); NoOverflow(Step(h, ops[0]), ops[1..])))
  }

  lemma {:induction false} OverflowStays(h: History, ops: seq<Operation>)
    requires Balanced(h) && NoOverflow(h, ops)
    ensures After(h, ops).overflow == h.overflow
    decreases |ops|
  {
    hide Input, Sum;
    if ops != [] {
      StepBalances(h, ops[0]);
      OverflowStays(Step(h, ops[0]), ops[1..]);
    }
  }

  lemma BalancedBooks(h: History)
    requires Balanced(h)
    ensures WholeTurns(h.input.Minus(Accounted(h)))
    ensures h.overflow == ZERO ==> h.input == Accounted(h)
  {
    hide Accounted, WholeTurns, Motion.InRange;
    assert h.input.Minus(Accounted(h)) == h.overflow;
  }

  function SinceReset(ops: seq<Operation>): (h: History)
    ensures Balanced(h)
  {
    ResetBalances();
    After(AFTER_RESET, ops)
  }

  predicate NeverOverflows(ops: seq<Operation>) {
    ResetBalances();
    NoOverflow(AFTER_RESET, ops)
  }

  /**
   * Motion is conserved: after any events, syncs and polls since reset, on every axis the total input is what was
   * delivered, plus what is queued, plus what was dropped, plus what is pending; exactly if no accumulator left
   * 32 bits on the way, and up to multiples of 2^32 otherwise.
   */
  lemma MotionConserved(ops: seq<Operation>)
    ensures var h := SinceReset(ops);
      WholeTurns(h.input.Minus(Accounted(h))) && (NeverOverflows(ops) ==> h.input == Accounted(h))
  {
    ResetBalances();
    hide Accounted, WholeTurns, Balanced, Step, After, NoOverflow, Motion.Minus;
    BalancedBooks(SinceReset(ops));
    if NeverOverflows(ops) {
      OverflowStays(AFTER_RESET, ops);
    }
  }

  // ----- the input, counted without the device -----

  /** The relative steps on an axis, added up. */
  function Steps(ops: seq<Operation>, axis: Axis): int
    decreases |ops|
  {
    if ops == [] then 0
    else
      (match ops[0]
       case Happens(Relative(a, value)) => if a == axis then value else 0
       case _ => 0) + Steps(ops[1..], axis)
  }

  function Pixels(axis: Axis): nat {
    if axis == X then 1920 else 1080
  }

  /** The absolute positions on an axis, in pixels. */
  function Positions(ops: seq<Operation>, axis: Axis): seq<int>
    decreases |ops|
  {
    if ops == [] then []
    else
      (match ops[0]
       case Happens(Absolute(a, value)) => if a == axis then [Scaled(value, Pixels(axis))] else []
       case _ => []) + Positions(ops[1..], axis)
  }

  /** The way along a list of positions, from `anchor` on. There is no way from a negative position. */
  function Travelled(anchor: int, positions: seq<int>): int
    decreases |positions|
  {
    if positions == [] then 0
    else (if anchor >= 0 then positions[0] - anchor else 0) + Travelled(positions[0], positions[1..])
  }

  /** Presses of one wheel button less presses of the opposite one. */
  function Clicks(ops: seq<Operation>, forward: Button, back: Button): int
    decreases |ops|
  {
    if ops == [] then 0
    else
      (if ops[0] == Happens(Press(forward, true)) then 1 else if ops[0] == Happens(Press(back, true)) then -1 else 0)
      + Clicks(ops[1..], forward, back)
  }

  /** What the events of a history ask for on the four axes, with positions counted from the anchors given. */
  function Movement(anchorX: int, anchorY: int, ops: seq<Operation>): Motion {
    Motion(Steps(ops, X) + Travelled(anchorX, Positions(ops, X)), Steps(ops, Y) + Travelled(anchorY, Positions(ops, Y)),
           Clicks(ops, WheelUp, WheelDown), Clicks(ops, WheelRight, WheelLeft))
  }

  /** Positions telescope: only the last and the first count, as long as no position between them is negative. */
  lemma {:induction false} Telescopes(anchor: int, positions: seq<int>)
    requires positions != [] && OnScreen(positions)
    ensures Travelled(anchor, positions)
         == positions[|positions| - 1] - (if anchor >= 0 then anchor else positions[0])
    decreases |positions|
  {
    if |positions| == 1 {
      assert Travelled(positions[0], positions[1..]) == 0;
    } else {
      Telescopes(positions[0], positions[1..]);
    }
  }

  /** The anchors that an operation leaves behind. */
  function Anchor(anchor: int, op: Operation, axis: Axis): int {
    if op.Happens? && op.event.Absolute? && op.event.axis == axis then Scaled(op.event.value, Pixels(axis)) else anchor
  }

  lemma TravelledStep(anchor: int, op: Operation, ops: seq<Operation>, axis: Axis)
    ensures Steps([op] + ops, axis) == Steps(ops, axis)
      + (if op.Happens? && op.event.Relative? && op.event.axis == axis then op.event.value else 0)
    ensures Travelled(anchor, Positions([op] + ops, axis)) == Travelled(Anchor(anchor, op, axis), Positions(ops, axis))
      + (if op.Happens? && op.event.Absolute? && op.event.axis == axis && anchor >= 0
         then Scaled(op.event.value, Pixels(axis)) - anchor else 0)
  {
    hide Scaled, Pixels;
    assert ([op] + ops)[1..] == ops;
    if op.Happens? && op.event.Absolute? && op.event.axis == axis {
      var here := [Scaled(op.event.value, Pixels(axis))];
      assert (here + Positions(ops, axis))[1..] == Positions(ops, axis);
    } else {
      assert [] + Positions(ops, axis) == Positions(ops, axis);
    }
  }

  /** One operation adds to the books of the device what it adds to the count. */
  lemma MovementStep(h: History, ops: seq<Operation>)
    requires Balanced(h) && ops != []
    ensures var d, h' := h.device, Step(h, ops[0]);
      h.input.Plus(Movement(d.lastX, d.lastY, ops)) == h'.input.Plus(Movement(h'.device.lastX, h'.device.lastY, ops[1..]))
  {
    hide Scaled, Steps, Travelled, Positions, Sum, WholeTurns, Motion.InRange, Motion.Stored, Chunks, Accounted;
    var d := h.device;
    assert [ops[0]] + ops[1..] == ops;
    TravelledStep(d.lastX, ops[0], ops[1..], X);
    TravelledStep(d.lastY, ops[0], ops[1..], Y);
  }

  lemma {:induction false} InputIsMovement(h: History, ops: seq<Operation>)
    requires Balanced(h)
    ensures After(h, ops).input == h.input.Plus(Movement(h.device.lastX, h.device.lastY, ops))
    decreases |ops|
  {
    hide Step, Accounted, WholeTurns, Motion.InRange;
    if ops == [] {
      assert Movement(h.device.lastX, h.device.lastY, []) == ZERO;
    } else {
      StepBalances(h, ops[0]);
      MovementStep(h, ops);
      InputIsMovement(Step(h, ops[0]), ops[1..]);
    }
  }

  /**
   * The same from end to end. After any events, syncs and polls since reset, in any order, the relative steps, the way
   * along the absolute positions and the clicks of the wheels are all delivered, dropped, queued or pending.
   */
  lemma MovementConserved(ops: seq<Operation>)
    ensures var h, movement := SinceReset(ops), Movement(-1, -1, ops);
      WholeTurns(movement.Minus(Accounted(h))) && (NeverOverflows(ops) ==> movement == Accounted(h))
  {
    ResetBalances();
    hide Accounted, WholeTurns, Balanced, Step, After, NeverOverflows, Movement;
    InputIsMovement(AFTER_RESET, ops);
    MotionConserved(ops);
    assert ZERO.Plus(Movement(-1, -1, ops)) == Movement(-1, -1, ops);
  }

  function Distance(positions: seq<int>): int {
    if positions == [] then 0 else positions[|positions| - 1] - positions[0]
  }

  /** No position is negative, except perhaps the last. */
  predicate OnScreen(positions: seq<int>) {
    forall i :: 0 <= i < |positions| - 1 ==> positions[i] >= 0
  }

  /**
   * So without overflow, and with positions on the screen, what was delivered, dropped, queued or is pending is on the
   * two axes the relative steps plus the last position less the first, and on the wheels the clicks.
   */
  lemma AbsoluteTelescopes(ops: seq<Operation>)
    requires NeverOverflows(ops) && OnScreen(Positions(ops, X)) && OnScreen(Positions(ops, Y))
    ensures Accounted(SinceReset(ops)) ==
      Motion(Steps(ops, X) + Distance(Positions(ops, X)), Steps(ops, Y) + Distance(Positions(ops, Y)),
             Clicks(ops, WheelUp, WheelDown), Clicks(ops, WheelRight, WheelLeft))
  {
    hide Accounted, SinceReset, NeverOverflows, Positions, Steps, Clicks;
    MovementConserved(ops);
    if Positions(ops, X) != [] {
      Telescopes(-1, Positions(ops, X));
    }
    if Positions(ops, Y) != [] {
      Telescopes(-1, Positions(ops, Y));
    }
  }

  // ----- buttons and positions as the host sees them -----

  /** The state of a button that a report carries. */
  predicate ButtonIn(mask: nat, button: Button) {
    match button
    case Left => mask % 2 == 1
    case Right => mask / 2 % 2 == 1
    case Middle => mask / 4 % 2 == 1
    case _ => false
  }

  predicate OnReport(button: Button) {
    button == Left || button == Right || button == Middle
  }

  /** The last thing said about a button. */
  predicate ButtonDown(ops: seq<Operation>, button: Button)
    decreases |ops|
  {
    if ops == [] then false
    else
      match ops[|ops| - 1]
      case Happens(Press(b, down)) => if b == button then down else ButtonDown(ops[..|ops| - 1], button)
      case _ => ButtonDown(ops[..|ops| - 1], button)
  }

  lemma {:induction false} AfterOneMore(h: History, ops: seq<Operation>, op: Operation)
    requires Balanced(h)
    ensures After(h, ops + [op]) == Step(After(h, ops), op)
    decreases |ops|
  {
    hide Step, Accounted, WholeTurns, Motion.InRange;
    if ops == [] {
      assert ([] + [op])[1..] == [];
      StepBalances(h, op);
      assert After(Step(h, op), []) == Step(h, op);
    } else {
      assert (ops + [op])[1..] == ops[1..] + [op];
      StepBalances(h, ops[0]);
      AfterOneMore(Step(h, ops[0]), ops[1..], op);
    }
  }

  lemma ButtonsAfterStep(h: History, op: Operation, button: Button)
    requires h.device.Valid() && OnReport(button)
    ensures ButtonIn(Step(h, op).device.buttons.Mask(), button) <==>
      match op
      case Happens(Press(b, down)) => if b == button then down else ButtonIn(h.device.buttons.Mask(), button)
      case _ => ButtonIn(h.device.buttons.Mask(), button)
  {
    hide Input, Motion.InRange, Motion.Stored, Sum, Chunks, PushAll, LostAll, Scaled;
  }

  /** Every report carries, in the bit of its button, whether that button was last pressed or released. */
  lemma {:induction false} ButtonsFollow(ops: seq<Operation>, button: Button)
    requires OnReport(button)
    ensures ButtonIn(SinceReset(ops).device.buttons.Mask(), button) <==> ButtonDown(ops, button)
    decreases |ops|
  {
    hide Step, SinceReset, ButtonIn, Buttons.Mask, OnReport, Accounted, WholeTurns, Motion.InRange;
    NothingHappened();
    NoButtons(button);
    if ops != [] {
      var n := |ops| - 1;
      ButtonsFollow(ops[..n], button);
      assert ops == ops[..n] + [ops[n]];
      SinceResetOneMore(ops[..n], ops[n]);
      ButtonsAfterStep(SinceReset(ops[..n]), ops[n], button);
    }
  }

  lemma SinceResetOneMore(ops: seq<Operation>, op: Operation)
    ensures SinceReset(ops + [op]) == Step(SinceReset(ops), op)
  {
    hide Step, Accounted, WholeTurns, Motion.InRange, After;
    ResetBalances();
    AfterOneMore(AFTER_RESET, ops, op);
  }

  lemma NothingHappened()
    ensures SinceReset([]).device == FRESH
  {
    ResetBalances();
    hide Balanced, Step;
    AfterNothing(AFTER_RESET);
  }

  lemma AfterNothing(h: History)
    requires Balanced(h)
    ensures After(h, []) == h
  {
    hide Balanced, Step;
  }

  lemma NoButtons(button: Button)
    ensures !ButtonIn(FRESH.buttons.Mask(), button)
  {
  }

  /** The reports that a sync adds to the queue all show the buttons as they are. */
  lemma SyncShowsButtons(d: Device, button: Button)
    requires d.Valid() && d.event && OnReport(button)
    ensures var sent := Reports(d.buttons, Chunks(d.pending, MAX_REPORTS));
      && sent != [] && SyncLoses(d) + Sync(d).queue == d.queue + sent
      && forall i :: 0 <= i < |sent| ==> (ButtonIn(sent[i].buttons, button) <==> ButtonIn(d.buttons.Mask(), button))
  {
    hide Chunks, PushAll, LostAll, ButtonIn, Motion.InRange;
    PushAllKeepsOrder(d.queue, CAPACITY, Reports(d.buttons, Chunks(d.pending, MAX_REPORTS)));
  }

  /**
   * Nothing goes unsaid: an event that does not ask for a report has changed nothing. And nothing is said twice: a
   * second sync sends nothing.
   */
  lemma NothingGoesUnsaid(d: Device, e: Event)
    requires d.Valid() && !d.event
    ensures !HandleEvent(d, e).event ==> HandleEvent(d, e) == d
    ensures HandleEvent(d, e).event <==>
      match e
      case Relative(_, _) => true
      case Absolute(_, _) => true
      case Press(b, down) => if OnReport(b) then true else b != OtherButton && down
  {
    hide Signed32, Scaled;
  }

  lemma SecondSyncIsSilent(d: Device)
    requires d.Valid()
    ensures Sync(d).Valid() && Sync(Sync(d)) == Sync(d)
  {
    hide Chunks, PushAll, Motion.InRange;
    if d.event {
      SyncDrains(d);
    }
  }

  /** An absolute position is the pixel it lies in, of `pixels` pixels along the axis. */
  lemma ScaledExactly(value: int, pixels: nat)
    requires 0 <= value <= 32767 && pixels <= 32767
    ensures 0 <= Scaled(value, pixels) <= pixels
    ensures Scaled(value, pixels) * 32767 <= value * pixels < (Scaled(value, pixels) + 1) * 32767
  {
    hide Signed32;
    assert 0 <= value * pixels <= 32767 * pixels;
    assert 0 <= value * pixels / 32767 <= pixels;
  }

  // ----- the device -----

  class MightyMouse {
    var pendingDx: int
    var pendingDy: int
    var pendingWheel: int
    var pendingHwheel: int
    var buttonLeft: bool
    var buttonRight: bool
    var buttonMiddle: bool
    var pendingEvent: bool
    var lastAbsX: int
    var lastAbsY: int
    const queue: Ring<Report>

    ghost predicate Valid()
      reads this, queue
    {
      queue.Valid() && queue.slots.Length == QUEUE_DEPTH && Pending().InRange()
    }

    ghost function Pending(): Motion
      reads this
    {
      Motion(pendingDx, pendingDy, pendingWheel, pendingHwheel)
    }

    ghost function View(): (d: Device)
      requires Valid()
      reads this, queue, queue.slots
    {
      Device(Pending(), Buttons(buttonLeft, buttonRight, buttonMiddle), pendingEvent, lastAbsX, lastAbsY, queue.Contents())
    }

    constructor ()
      ensures Valid() && View() == FRESH && fresh(queue) && fresh(queue.slots)
    {
      queue := new Ring<Report>(QUEUE_DEPTH);
      pendingDx, pendingDy, pendingWheel, pendingHwheel := 0, 0, 0, 0;
      buttonLeft, buttonRight, buttonMiddle, pendingEvent := false, false, false, false;
      lastAbsX, lastAbsY := -1, -1;
    }

    /** `usb_apple_magic_tablet_handle_reset`. */
    method Reset()
      requires Valid()
      modifies this, queue
      ensures Valid() && View() == FRESH
    {
      queue.Clear();
      pendingDx, pendingDy, pendingWheel, pendingHwheel := 0, 0, 0, 0;
      buttonLeft, buttonRight, buttonMiddle, pendingEvent := false, false, false, false;
      lastAbsX, lastAbsY := -1, -1;
    }

    /** `amt_emit_boot_mouse`. */
    method EmitBootMouse()
      requires Valid()
      modifies this`pendingDx, this`pendingDy, this`pendingWheel, this`pendingHwheel, queue, queue.slots
      ensures Valid() && View() == Emit(old(View()))
    {
      hide Push;
      var dx, dy := Clamp(pendingDx), Clamp(pendingDy);
      var wheel, hwheel := Clamp(pendingWheel), Clamp(pendingHwheel);
      pendingDx := pendingDx - dx;
      pendingDy := pendingDy - dy;
      pendingWheel := pendingWheel - wheel;
      pendingHwheel := pendingHwheel - hwheel;
      var mask := (if buttonLeft then 1 else 0) + (if buttonRight then 2 else 0) + (if buttonMiddle then 4 else 0);
      queue.Enqueue(Report(mask, Motion(dx, dy, wheel, hwheel)));
    }

    /** `amt_input_event`, relative motion. */
    method InputRelative(axis: Axis, value: int)
      requires Valid()
      modifies this
      ensures Valid() && View() == HandleEvent(old(View()), Relative(axis, value))
    {
      hide Signed32;
      if axis == X {
        pendingDx := Signed32(pendingDx + value);
      } else if axis == Y {
        pendingDy := Signed32(pendingDy + value);
      }
      pendingEvent := true;
    }

    /** Absolute motion, turned into the distance from the last position. */
    method InputAbsolute(axis: Axis, value: int)
      requires Valid()
      modifies this
      ensures Valid() && View() == HandleEvent(old(View()), Absolute(axis, value))
    {
      hide Signed32, Scaled;
      if axis == X {
        var scaled := Scaled(value, 1920);
        if lastAbsX >= 0 {
          pendingDx := Signed32(pendingDx + (scaled - lastAbsX));
        }
        lastAbsX := scaled;
      } else if axis == Y {
        var scaled := Scaled(value, 1080);
        if lastAbsY >= 0 {
          pendingDy := Signed32(pendingDy + (scaled - lastAbsY));
        }
        lastAbsY := scaled;
      }
      pendingEvent := true;
    }

    /** Buttons, and the wheel, which arrives as buttons. */
    method InputButton(button: Button, down: bool)
      requires Valid()
      modifies this
      ensures Valid() && View() == HandleEvent(old(View()), Press(button, down))
    {
      hide Signed32;
      match button {
        case Left =>
          buttonLeft := down;
          pendingEvent := true;
        case Right =>
          buttonRight := down;
          pendingEvent := true;
        case Middle =>
          buttonMiddle := down;
          pendingEvent := true;
        case WheelUp =>
          if down {
            pendingWheel := Signed32(pendingWheel + 1);
            pendingEvent := true;
          }
        case WheelDown =>
          if down {
            pendingWheel := Signed32(pendingWheel - 1);
            pendingEvent := true;
          }
        case WheelLeft =>
          if down {
            pendingHwheel := Signed32(pendingHwheel - 1);
            pendingEvent := true;
          }
        case WheelRight =>
          if down {
            pendingHwheel := Signed32(pendingHwheel + 1);
            pendingEvent := true;
          }
        case OtherButton =>
      }
    }

    method InputEvent(e: Event)
      requires Valid()
      modifies this
      ensures Valid() && View() == HandleEvent(old(View()), e)
    {
      hide HandleEvent;
      match e {
        case Relative(axis, value) => InputRelative(axis, value);
        case Absolute(axis, value) => InputAbsolute(axis, value);
        case Press(button, down) => InputButton(button, down);
      }
    }

    /** `amt_input_sync`: at least one report, then more until the accumulators are empty or 64 have been sent. */
    method InputSync()
      requires Valid()
      modifies this, queue, queue.slots
      ensures Valid() && View() == Sync(old(View()))
    {
      hide Emit, Midway, Chunks;
      if !pendingEvent {
        return;
      }
      ghost var d := View();
      pendingEvent := false;
      ghost var sent: seq<Motion> := [];
      NothingSent(d);
      EmitContinues(d, sent, MAX_REPORTS);
      sent := sent + [Pending().Clamped()];
      EmitBootMouse();
      var loops := 1;
      while (pendingDx != 0 || pendingDy != 0 || pendingWheel != 0 || pendingHwheel != 0) && loops < MAX_REPORTS
        invariant 1 <= loops <= MAX_REPORTS && Valid() && View() == Midway(d, sent)
        invariant Chunks(d.pending, MAX_REPORTS) ==
          sent + (if Pending() != ZERO && loops < MAX_REPORTS then Chunks(Pending(), MAX_REPORTS - loops) else [])
        decreases MAX_REPORTS - loops
      {
        EmitContinues(d, sent, MAX_REPORTS - loops);
        sent := sent + [Pending().Clamped()];
        EmitBootMouse();
        loops := loops + 1;
      }
      assert sent + [] == sent;
      SyncIsMidway(d);
    }

    /** `usb_apple_magic_tablet_handle_data`: the oldest report on the interrupt endpoint; anything else stalls. */
    method HandleData(p: Packet) returns (answer: Answer<Report>)
      requires Valid()
      modifies queue
      ensures Valid() && View() == if p.token == In && p.endpoint == 1 then Polled(old(View())) else old(View())
      ensures answer ==
        if p.token != In || p.endpoint != 1 then Stall
        else if old(View()).queue == [] then Nak
        else Data(old(View()).queue[0])
    {
      if p.token != In || p.endpoint != 1 {
        return Stall;
      }
      if queue.head == queue.tail {
        return Nak;
      }
      var report := queue.Dequeue();
      return Data(report);
    }
  }

  lemma NothingSent(d: Device)
    requires |d.queue| <= CAPACITY
    ensures Midway(d, []) == d.(event := false)
  {
    assert Reports(d.buttons, []) == [];
  }

  lemma SyncIsMidway(d: Device)
    requires d.Valid() && d.event
    ensures Sync(d) == Midway(d, Chunks(d.pending, MAX_REPORTS))
  {
  }
}
