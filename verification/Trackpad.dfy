/** The Magic Trackpad: numbered multitouch frames in a queue that drops the oldest (hw/usb/dev-hid-apple-trackpad.c). */
module Trackpad {
  import opened Words
  import opened Rings
  import opened Usb

  const QUEUE_DEPTH := 32
  const CAPACITY := 31
  const REPORT_MAX_LEN := 64
  const BOOT_LEN := 8
  const EP_IFACE1_IN := 3

  type Frame = seq<Byte>

  // ----- frames -----

  /** An 8-bit two's complement byte. */
  function SignedByte(v: int): Byte
  {
    v % 0x100
  }

  /** `amtp_map_abs`. */
  function MapAbs(v: int, outMin: int, outMax: int): int {
    outMin + Signed32(Quotient(v * (outMax - outMin), 32767))
  }

  /** `amtp_pack_finger`: thirteen bits of x, eleven of y. */
  function Finger(x: int, y: int, pressure: Byte, state: nat, id: nat): (f: seq<Byte>)
    requires state < 16 && id < 16
    ensures |f| == 9
  {
    var xu, yu := x % 0x2000, y % 0x2000;
    [xu % 0x100, xu / 0x100 + (yu % 8) * 32, (yu / 8) % 0x100, 0x07, 0x45, 0, pressure, id + 16 * state, 0]
  }

  /** `amtp_emit_boot_mouse`. */
  function BootFrame(dx: int, dy: int, pressed: bool): (f: Frame)
    ensures |f| == BOOT_LEN
  {
    [0x02, if pressed then 1 else 0, SignedByte(dx), SignedByte(dy), 0, 0, 0, 0]
  }

  /** `amtp_emit_multitouch`: header with the counter, at most one finger, four trailing zeros. */
  function TouchFrame(number: Uint32, pressed: bool, finger: bool, x: int, y: int): (f: Frame)
    ensures |f| == (if finger then 21 else 12) <= REPORT_MAX_LEN
  {
    [0x02, if pressed then 1 else 0,
     LittleEndianByte(number, 0), LittleEndianByte(number, 1), LittleEndianByte(number, 2), LittleEndianByte(number, 3),
     0, 1]
    + (if finger then Finger(MapAbs(x, -3678, 3825), MapAbs(y, -2280, 2280), if pressed then 0xc0 else 0x40, 4, 0) else [])
    + [0, 0, 0, 0]
  }

  /** The host tells the two kinds of frame apart by their length. */
  predicate IsTouch(f: Frame) {
    |f| >= 12
  }

  /** The counter that the host reads back from a multitouch frame. */
  function Number(f: Frame): Uint32
    requires IsTouch(f)
  {
    BigEndian([f[5], f[4], f[3], f[2]])
  }

  lemma NumberRoundTrip(number: Uint32, pressed: bool, finger: bool, x: int, y: int)
    ensures Number(TouchFrame(number, pressed, finger, x, y)) == number
  {
    hide Finger, MapAbs, BigEndian, LittleEndianByte;
    var f := TouchFrame(number, pressed, finger, x, y);
    BigEndianRoundTrip(number);
    BytesAgree(number);
    assert [f[5], f[4], f[3], f[2]] == BigEndianBytes(number);
  }

  lemma BytesAgree(u: Uint32)
    ensures BigEndianBytes(u) == [LittleEndianByte(u, 3), LittleEndianByte(u, 2), LittleEndianByte(u, 1), LittleEndianByte(u, 0)]
  {
  }

  // ----- the device as a value -----

  datatype Device = Device(multitouch: bool, absX: int, absY: int, prevX: int, prevY: int, pressed: bool, finger: bool,
                           event: bool, number: Uint32, queue: seq<Frame>)

  datatype Operation =
    | LeftButton(down: bool)
    | OtherButton
    | AbsoluteX(value: int)
    | AbsoluteY(value: int)
    | EnableMultitouch       // SET_REPORT of the feature report 0x02
    | Synchronise
    | Poll

  /** The frame that a sync sends. */
  function NextFrame(d: Device): (f: Frame)
    ensures IsTouch(f) <==> d.multitouch
  {
    if d.multitouch then TouchFrame(d.number, d.pressed, d.finger, d.absX, d.absY)
    else BootFrame(Clamp(Quotient(Signed32(d.absX - d.prevX), 4)), Clamp(Quotient(Signed32(d.absY - d.prevY), 4)), d.pressed)
  }

  function Step(d: Device, op: Operation): (d': Device)
    requires |d.queue| <= CAPACITY
    ensures |d'.queue| <= CAPACITY
  {
    match op
    case LeftButton(down) => d.(pressed := down, event := true)
    case OtherButton => d.(event := true)
    case AbsoluteX(value) => d.(absX := Signed32(value), finger := true, event := true)
    case AbsoluteY(value) => d.(absY := Signed32(value), finger := true, event := true)
    case EnableMultitouch => d.(multitouch := true)
    case Synchronise =>
      if !d.event then d
      else
        var d1 := d.(event := false, queue := Push(d.queue, CAPACITY, NextFrame(d)));
        if d.multitouch then d1.(number := Wrap32(d.number + 1)) else d1.(prevX := d.absX, prevY := d.absY)
    case Poll => if d.queue == [] then d else d.(queue := d.queue[1..])
  }

  // ----- what the host reads -----

  /** A field of `range` values in two's complement. */
  function SignedField(v: nat, range: nat): int {
    if v < range / 2 then v else v - range
  }

  /** The position that a host takes from a finger record. */
  function HostX(f: seq<Byte>): int
    requires |f| == 9
  {
    SignedField(f[0] as int + 0x100 * (f[1] as int % 32), 8192)
  }

  function HostY(f: seq<Byte>): int
    requires |f| == 9
  {
    SignedField(f[1] as int / 32 + 8 * f[2] as int, 2048)
  }

  lemma FiveAndThree(a: nat, t: nat)
    requires a < 32 && t < 8
    ensures (a + t * 32) % 32 == a && (a + t * 32) / 32 == t
  {
  }

  lemma RestOf2048(v: int, q: int, r: nat)
    requires v == 2048 * q + r && r < 2048
    ensures v % 2048 == r
  {
  }

  lemma LowBits(yu: nat)
    requires yu < 0x2000
    ensures yu == 2048 * (yu / 8 / 0x100) + (yu % 8 + 8 * ((yu / 8) % 0x100))
  {
    var q := yu / 8;
    LastByte(q);
    assert yu == 8 * q + yu % 8;
  }

  /** The low three bits of y and eight more. */
  lemma ElevenBits(y: int)
    ensures var yu := y % 0x2000;
      yu % 8 + 8 * ((yu / 8) % 0x100) == y % 2048
  {
    var m, yu: nat := y / 0x2000, y % 0x2000;
    var low, high := yu % 8 + 8 * ((yu / 8) % 0x100), yu / 8 / 0x100;
    LowBits(yu);
    assert y == 0x2000 * m + yu == 2048 * (4 * m + high) + low;
    RestOf2048(y, 4 * m + high, low);
  }

  lemma FingerFields(x: int, y: int, pressure: Byte, state: nat, id: nat)
    requires state < 16 && id < 16
    ensures var f := Finger(x, y, pressure, state, id);
      && HostX(f) == SignedField(x % 8192, 8192) && HostY(f) == SignedField(y % 2048, 2048)
      && f[6] == pressure && f[7] == id + 16 * state
  {
    hide SignedField;
    var xu, yu := x % 0x2000, y % 0x2000;
    FiveAndThree(xu / 0x100, yu % 8);
    ElevenBits(y);
  }

  /**
   * The host reads x back exactly if it fits thirteen bits. Of y only eleven bits are sent, so it comes back exactly if
   * it lies between -1024 and 1023; the other fields always do.
   */
  lemma FingerReads(x: int, y: int, pressure: Byte, state: nat, id: nat)
    requires state < 16 && id < 16
    ensures var f := Finger(x, y, pressure, state, id);
      && (HostX(f) == x <==> -4096 <= x < 4096) && (HostY(f) == y <==> -1024 <= y < 1024)
      && f[6] == pressure && f[7] % 16 == id && f[7] / 16 == state
  {
    hide Finger, HostX, HostY, SignedField;
    FingerFields(x, y, pressure, state, id);
    InField(x, 8192);
    InField(y, 2048);
  }

  lemma InField(v: int, range: int)
    requires range == 8192 || range == 2048
    ensures SignedField(v % range, range) == v <==> -range / 2 <= v < range / 2
  {
  }

  /** A position of the pointer, mapped linearly and rounded down, from one end of the sensor to the other. */
  lemma MapAbsExactly(v: int, low: int, high: int)
    requires 0 <= v <= 32767 && 0 <= high - low <= 0xffff
    ensures var p := MapAbs(v, low, high);
      low <= p <= high && (p - low) * 32767 <= v * (high - low) < (p - low + 1) * 32767
  {
    hide Signed32;
    var span := high - low;
    assert 0 <= v * span <= 32767 * span;
    assert 0 <= v * span / 32767 <= span;
  }

  function LastFrame(d: Device): Frame
    requires d.queue != []
  {
    d.queue[|d.queue| - 1]
  }

  lemma SyncQueues(d: Device)
    requires |d.queue| <= CAPACITY && d.event
    ensures var d' := Step(d, Synchronise);
      && d'.queue != [] && |d'.queue| == (if |d.queue| < 31 then |d.queue| + 1 else 31)
      && LastFrame(d') == NextFrame(d) && !d'.event && Step(d', Synchronise) == d'
  {
    hide NextFrame;
  }

  /**
   * In multitouch mode, a pointer that has been put somewhere is a finger there in the next frame: its x is the mapped
   * position, its y too as far as eleven bits go, and the button shows in the frame and in the pressure.
   */
  lemma PointerReachesHost(d: Device, x: int, y: int, down: bool)
    requires |d.queue| <= CAPACITY && d.multitouch && 0 <= x <= 32767 && 0 <= y <= 32767
    ensures var d' := Step(Step(Step(Step(d, AbsoluteX(x)), AbsoluteY(y)), LeftButton(down)), Synchronise);
      && d'.queue != []
      && var f := LastFrame(d');
      && |f| == 21 && f[0] == 0x02 && f[1] == (if down then 1 else 0) && f[17..] == [0, 0, 0, 0]
      && var finger := f[8..17];
      && (HostX(finger) + 3678) * 32767 <= x * 7503 < (HostX(finger) + 3679) * 32767
      && HostY(finger) == SignedField(MapAbs(y, -2280, 2280) % 2048, 2048)
      && finger[6] == (if down then 0xc0 else 0x40) && finger[7] == 0x40
  {
    hide MapAbs, Finger, Number, Signed32, LittleEndianByte, Step, NextFrame, TouchFrame, SignedField, HostX, HostY;
    var d1 := d.(absX := x, absY := y, finger := true, pressed := down, event := true);
    PointerMoves(d, x, y, down);
    SyncQueues(d1);
    TouchFrameOf(d1);
    var px, py := MapAbs(x, -3678, 3825), MapAbs(y, -2280, 2280);
    FingerReads(px, py, if down then 0xc0 else 0x40, 4, 0);
    MapAbsExactly(x, -3678, 3825);
    FingerFields(px, py, if down then 0xc0 else 0x40, 4, 0);
  }

  lemma PointerMoves(d: Device, x: int, y: int, down: bool)
    requires |d.queue| <= CAPACITY && 0 <= x <= 32767 && 0 <= y <= 32767
    ensures Step(Step(Step(d, AbsoluteX(x)), AbsoluteY(y)), LeftButton(down))
         == d.(absX := x, absY := y, finger := true, pressed := down, event := true)
  {
    hide Signed32, NextFrame;
  }

  lemma TouchFrameOf(d: Device)
    requires d.multitouch && d.finger
    ensures var f := NextFrame(d);
      && |f| == 21 && f[0] == 0x02 && f[1] == (if d.pressed then 1 else 0) && f[17..] == [0, 0, 0, 0]
      && f[8..17] == Finger(MapAbs(d.absX, -3678, 3825), MapAbs(d.absY, -2280, 2280), if d.pressed then 0xc0 else 0x40, 4, 0)
  {
    hide MapAbs, Finger, LittleEndianByte;
  }

  /** A quarter of the way along an axis, rounded toward zero and cut to 127 either way. */
  predicate QuarterOf(delta: int, way: int) {
    if way >= 512 then delta == 127
    else if way <= -512 then delta == -127
    else if way >= 0 then 0 <= way - 4 * delta < 4
    else 0 <= 4 * delta - way < 4
  }

  /** Before multitouch, a frame carries the way since the last frame, and the next one starts from here. */
  lemma BootFrameReads(d: Device)
    requires |d.queue| <= CAPACITY && d.event && !d.multitouch
    requires -TWO_31 <= d.absX - d.prevX < TWO_31 && -TWO_31 <= d.absY - d.prevY < TWO_31
    ensures var d' := Step(d, Synchronise);
      && d'.queue != []
      && var f := LastFrame(d');
      && |f| == 8 && f[0] == 0x02 && f[1] == (if d.pressed then 1 else 0) && f[4..] == [0, 0, 0, 0]
      && QuarterOf(SignedField(f[2], 256), d.absX - d.prevX) && QuarterOf(SignedField(f[3], 256), d.absY - d.prevY)
      && d'.prevX == d.absX && d'.prevY == d.absY
  {
    hide Signed32, Quotient, Clamp, QuarterOf, SignedField, SignedByte;
    SyncQueues(d);
    QuarterByte(d.absX - d.prevX);
    QuarterByte(d.absY - d.prevY);
  }

  lemma QuarterByte(way: int)
    ensures QuarterOf(SignedField(SignedByte(Clamp(Quotient(way, 4))), 256), way)
  {
    QuotientTruncates(way, 4);
  }

  /** Reset clears everything but the last absolute position. */
  predicate AfterReset(d: Device) {
    && !d.multitouch && !d.event && !d.finger && !d.pressed && d.number == 0
    && d.prevX == 0 && d.prevY == 0 && d.queue == []
  }

  /** Every event asks for a frame, even of buttons that no frame shows; switching to multitouch does not. */
  lemma EventsAreNoticed(d: Device, op: Operation)
    requires |d.queue| <= CAPACITY
    ensures op.LeftButton? || op.OtherButton? || op.AbsoluteX? || op.AbsoluteY? ==> Step(d, op).event
    ensures Step(d, OtherButton) == d.(event := true)
    ensures Step(d, EnableMultitouch) == d.(multitouch := true)
    ensures !d.event ==> Step(d, Synchronise) == d
  {
    hide NextFrame, Signed32;
  }

  /** After a reset the first multitouch frame is the idle one, with counter 0. */
  lemma FirstFrameIsIdle(d: Device)
    requires AfterReset(d)
    ensures var d' := Step(Step(Step(d, EnableMultitouch), OtherButton), Synchronise);
      && d'.queue == [[0x02, 0, 0, 0, 0, 0, 0, 0x01, 0, 0, 0, 0]] && d'.number == 1
  {
    hide Finger, MapAbs, Signed32;
    var d1 := Step(Step(d, EnableMultitouch), OtherButton);
    assert NextFrame(d1) == [0x02, 0, 0, 0, 0, 0, 0, 0x01, 0, 0, 0, 0];
  }

  /** And without multitouch the first frame carries the way from the origin. */
  lemma FirstBootFrame(d: Device)
    requires AfterReset(d) && -TWO_31 <= d.absX < TWO_31 && -TWO_31 <= d.absY < TWO_31
    ensures var d' := Step(Step(d, OtherButton), Synchronise);
      && |d'.queue| == 1 && |d'.queue[0]| == 8 && d'.queue[0][1] == 0
      && QuarterOf(SignedField(d'.queue[0][2], 256), d.absX) && QuarterOf(SignedField(d'.queue[0][3], 256), d.absY)
  {
    hide NextFrame, QuarterOf, SignedField, Push;
    SyncQueues(Step(d, OtherButton));
    BootFrameReads(Step(d, OtherButton));
  }

  // ----- histories since reset -----

  datatype Departure = Departure(frame: Frame, delivered: bool)

  /** `departed` lists the frames that have left the queue, in order, delivered to the host or dropped. */
  datatype History = History(device: Device, departed: seq<Departure>, boots: nat)

  function Record(h: History, op: Operation): History
    requires |h.device.queue| <= CAPACITY
  {
    var d, d' := h.device, Step(h.device, op);
    if op.Synchronise? && d.event then
      var lost := Lost(d.queue, CAPACITY);
      History(d', h.departed + (if lost == [] then [] else [Departure(lost[0], false)]), h.boots + (if d.multitouch then 0 else 1))
    else if op.Poll? && d.queue != [] then
      History(d', h.departed + [Departure(d.queue[0], true)], h.boots)
    else h.(device := d')
  }

  /** The frame sent as number `i` since reset, whether it has left or is still queued. */
  function Sent(h: History, i: nat): Frame
    requires i < |h.departed| + |h.device.queue|
  {
    if i < |h.departed| then h.departed[i].frame else h.device.queue[i - |h.departed|]
  }

  function Total(h: History): nat {
    |h.departed| + |h.device.queue|
  }

  /** First boot frames only, then multitouch frames numbered from 0, modulo 2^32. */
  ghost predicate Numbered(h: History) {
    && |h.device.queue| <= CAPACITY
    && h.boots <= Total(h)
    && (!h.device.multitouch ==> h.boots == Total(h))
    && (forall i: nat :: i < h.boots ==> !IsTouch(Sent(h, i)))
    && (forall i: nat :: h.boots <= i < Total(h) ==>
          IsTouch(Sent(h, i)) && Number(Sent(h, i)) == (i - h.boots) % TWO_32)
    && h.device.number == (Total(h) - h.boots) % TWO_32
  }

  lemma NumberAdvances(n: nat)
    ensures Wrap32(n % TWO_32 + 1) == (n + 1) % TWO_32
  {
  }

  /** A sync adds one frame at the end of everything sent, whether or not the oldest queued frame is dropped. */
  lemma SyncSends(h: History)
    requires |h.device.queue| <= CAPACITY && h.device.event
    ensures var h' := Record(h, Synchronise);
      && Total(h') == Total(h) + 1
      && (forall i: nat :: i < Total(h) ==> Sent(h', i) == Sent(h, i))
      && Sent(h', Total(h)) == NextFrame(h.device)
  {
    hide NextFrame;
  }

  /** Nothing else adds a frame, and a poll only moves one from the queue to the host. */
  lemma OthersSendNothing(h: History, op: Operation)
    requires |h.device.queue| <= CAPACITY && !(op.Synchronise? && h.device.event)
    ensures var h' := Record(h, op);
      && Total(h') == Total(h) && h'.boots == h.boots && h'.device.number == h.device.number
      && (h.device.multitouch ==> h'.device.multitouch)
      && forall i: nat :: i < Total(h) ==> Sent(h', i) == Sent(h, i)
  {
  }

  lemma NextFrameNumber(d: Device)
    requires d.multitouch
    ensures IsTouch(NextFrame(d)) && Number(NextFrame(d)) == d.number
  {
    hide TouchFrame, Number;
    NumberRoundTrip(d.number, d.pressed, d.finger, d.absX, d.absY);
  }

  lemma SyncKeepsNumbers(h: History)
    requires Numbered(h) && h.device.event
    ensures Numbered(Record(h, Synchronise))
  {
    hide NextFrame, Number, IsTouch, Sent, Wrap32, Push;
    SyncSends(h);
    NumberAdvances(Total(h) - h.boots);
    if h.device.multitouch {
      NextFrameNumber(h.device);
    } else {
      BootIsShort(h.device);
    }
  }

  lemma BootIsShort(d: Device)
    requires !d.multitouch
    ensures !IsTouch(NextFrame(d))
  {
  }

  lemma StepKeepsNumbers(h: History, op: Operation)
    requires Numbered(h)
    ensures Numbered(Record(h, op))
  {
    hide NextFrame, Number, IsTouch, Sent;
    if op.Synchronise? && h.device.event {
      SyncKeepsNumbers(h);
    } else {
      OthersSendNothing(h, op);
    }
  }

  function After(h: History, ops: seq<Operation>): (h': History)
    requires |h.device.queue| <= CAPACITY
    decreases |ops|
  {
    if ops == [] then h else After(Record(h, ops[0]), ops[1..])
  }

  lemma {:induction false} HistoryNumbered(h: History, ops: seq<Operation>)
    requires Numbered(h)
    ensures Numbered(After(h, ops))
    decreases |ops|
  {
    hide Number, IsTouch, Sent, Record;
    if ops != [] {
      StepKeepsNumbers(h, ops[0]);
      HistoryNumbered(Record(h, ops[0]), ops[1..]);
    }
  }

  /** Frames dropped after departure `i` and before departure `j`. */
  function DroppedBetween(departed: seq<Departure>, i: nat, j: nat): nat
    requires i < j <= |departed|
    decreases j
  {
    if j == i + 1 then 0
    else DroppedBetween(departed, i, j - 1) + (if departed[j - 1].delivered then 0 else 1)
  }

  lemma {:induction false} AllDropped(departed: seq<Departure>, i: nat, j: nat)
    requires i < j <= |departed| && forall k :: i < k < j ==> !departed[k].delivered
    ensures DroppedBetween(departed, i, j) == j - i - 1
    decreases j
  {
    if j > i + 1 {
      AllDropped(departed, i, j - 1);
    }
  }

  /**
   * The host can tell from the counters how much it missed: between two multitouch frames delivered one after the
   * other since the last reset, the frames dropped number the difference of their counters less one, modulo 2^32.
   */
  lemma GapsAreExact(d: Device, ops: seq<Operation>, i: nat, j: nat)
    requires AfterReset(d)
    requires var departed := After(History(d, [], 0), ops).departed;
      && i < j < |departed| && departed[i].delivered && departed[j].delivered
      && IsTouch(departed[i].frame) && IsTouch(departed[j].frame)
      && forall k :: i < k < j ==> !departed[k].delivered
    ensures var departed := After(History(d, [], 0), ops).departed;
      DroppedBetween(departed, i, j) % TWO_32 == (Number(departed[j].frame) - Number(departed[i].frame) - 1) % TWO_32
  {
    hide Number, IsTouch, After;
    var h := After(History(d, [], 0), ops);
    HistoryNumbered(History(d, [], 0), ops);
    AllDropped(h.departed, i, j);
    assert Sent(h, i) == h.departed[i].frame && Sent(h, j) == h.departed[j].frame;
    assert h.boots <= i;
    DifferenceModulo(j - h.boots, i - h.boots);
  }

  lemma DifferenceModulo(a: nat, b: nat)
    requires b < a
    ensures (a - b - 1) % TWO_32 == (a % TWO_32 - b % TWO_32 - 1) % TWO_32
  {
  }

  // ----- the device -----

  class MagicTrackpad {
    var multitouchEnabled: bool
    var absX: int
    var absY: int
    var prevAbsX: int
    var prevAbsY: int
    var buttonLeft: bool
    var fingerDown: bool
    var pendingEvent: bool
    var mtSeq: Uint32
    const queue: Ring<Frame>

    ghost predicate Valid()
      reads this, queue
    {
      queue.Valid() && queue.slots.Length == QUEUE_DEPTH
    }

    ghost function View(): (d: Device)
      requires Valid()
      reads this, queue, queue.slots
      ensures |d.queue| <= CAPACITY
    {
      Device(multitouchEnabled, absX, absY, prevAbsX, prevAbsY, buttonLeft, fingerDown, pendingEvent, mtSeq, queue.Contents())
    }

    constructor ()
      ensures Valid() && AfterReset(View()) && fresh(queue) && fresh(queue.slots)
    {
      queue := new Ring<Frame>(QUEUE_DEPTH);
      multitouchEnabled, buttonLeft, fingerDown, pendingEvent := false, false, false, false;
      absX, absY, prevAbsX, prevAbsY := 0, 0, 0, 0;
      mtSeq := 0;
    }

    /** `usb_apple_magic_trackpad_handle_reset`. */
    method Reset()
      requires Valid()
      modifies this, queue
      ensures Valid() && AfterReset(View()) && absX == old(absX) && absY == old(absY)
    {
      multitouchEnabled := false;
      pendingEvent := false;
      fingerDown := false;
      buttonLeft := false;
      mtSeq := 0;
      prevAbsX := 0;
      prevAbsY := 0;
      queue.Clear();
    }

    /** `amtp_input_event`, and the feature report that turns multitouch on. */
    method Input(op: Operation)
      requires Valid() && !op.Synchronise? && !op.Poll?
      modifies this
      ensures Valid() && View() == Step(old(View()), op)
    {
      match op {
        case LeftButton(down) =>
          buttonLeft := down;
          pendingEvent := true;
        case OtherButton =>
          pendingEvent := true;
        case AbsoluteX(value) =>
          absX := Signed32(value);
          fingerDown := true;
          pendingEvent := true;
        case AbsoluteY(value) =>
          absY := Signed32(value);
          fingerDown := true;
          pendingEvent := true;
        case EnableMultitouch =>
          multitouchEnabled := true;
      }
    }

    /** `amtp_input_sync`. */
    method InputSync()
      requires Valid()
      modifies this, queue, queue.slots
      ensures Valid() && View() == Step(old(View()), Synchronise)
    {
      hide Push;
      if !pendingEvent {
        return;
      }
      pendingEvent := false;
      if multitouchEnabled {
        var frame := TouchFrame(mtSeq, buttonLeft, fingerDown, absX, absY);
        mtSeq := Wrap32(mtSeq as int + 1);
        queue.Enqueue(frame);
      } else {
        var dx := Clamp(Quotient(Signed32(absX - prevAbsX), 4));
        var dy := Clamp(Quotient(Signed32(absY - prevAbsY), 4));
        prevAbsX := absX;
        prevAbsY := absY;
        queue.Enqueue(BootFrame(dx, dy, buttonLeft));
      }
    }

    /**
     * `usb_apple_magic_trackpad_handle_data`: the oldest frame on the endpoint of interface 1; the other IN endpoints
     * have nothing to say, and any other token stalls.
     */
    method HandleData(p: Packet) returns (answer: Answer<Frame>)
      requires Valid()
      modifies queue
      ensures Valid()
      ensures View() == if p.token == In && p.endpoint == 3 then Step(old(View()), Poll) else old(View())
      ensures answer ==
        if p.token != In then Stall
        else if p.endpoint != 3 || old(View()).queue == [] then Nak
        else Data(old(View()).queue[0])
    {
      if p.token != In {
        return Stall;
      }
      if p.endpoint != EP_IFACE1_IN {
        return Nak;
      }
      if queue.head == queue.tail {
        return Nak;
      }
      var frame := queue.Dequeue();
      return Data(frame);
    }
  }
}
