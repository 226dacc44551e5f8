/**
 * What the 2D engine does to the outside world, as a value: VRAM, the queue of delayed redraw rectangles,
 * the `invalidated` flag, and a log of every action (hw/display/vmware_vga.c).
 */
module Damage {
  import opened Words
  import opened Surfaces
  import opened Blit

  const REDRAW_FIFO_LEN := 512

  datatype CursorDefinition = CursorDefinition(
    id: int, hotX: int, hotY: int, width: nat, height: nat, bpp: nat, mask: seq<Uint32>, image: seq<Uint32>)

  /** `Requested` is a call of `vmsvga_update_rect_delayed`, `Shown` one of `dpy_gfx_update`. */
  datatype Event =
    | Wrote(rect: Rect)
    | Requested(rect: Rect)
    | Shown(rect: Rect)
    | ShownAll
    | CursorDefined(cursor: CursorDefinition)

  datatype Display = Display(vram: seq<Byte>, queue: seq<Rect>, invalidated: bool, log: seq<Event>)

  /** The effect of one complete command. */
  datatype Effect =
    | Nothing
    | Update(rect: Rect)
    | Fill(colour: Uint32, rect: Rect)
    | Copy(x0: int, y0: int, dst: Rect)
    | Cursor(cursor: CursorDefinition)

  // ----- the redraw queue -----

  /** `vmsvga_update_rect`: a rectangle off the surface is replaced by the whole surface. */
  function Clipped(s: Surface, r: Rect): Rect {
    if VerifyRect(s, r) then r else s.Whole()
  }

  function ShownRects(s: Surface, queue: seq<Rect>): (log: seq<Event>)
    ensures |log| == |queue|
    ensures forall i :: 0 <= i < |queue| ==> log[i] == Shown(Clipped(s, queue[i]))
  {
    if queue == [] then [] else ShownRects(s, queue[..|queue| - 1]) + [Shown(Clipped(s, queue[|queue| - 1]))]
  }

  function Flush(s: Surface, d: Display): Display {
    if d.invalidated then d.(queue := []) else d.(queue := [], log := d.log + ShownRects(s, d.queue))
  }

  function Request(s: Surface, d: Display, r: Rect): (d': Display)
    ensures |d.queue| <= REDRAW_FIFO_LEN ==> |d'.queue| <= REDRAW_FIFO_LEN
  {
    var d := if |d.queue| >= REDRAW_FIFO_LEN then Flush(s, d) else d;
    d.(queue := d.queue + [r], log := d.log + [Requested(r)])
  }

  ghost function Apply(s: Surface, d: Display, e: Effect): (d': Display)
    requires s.Fits(|d.vram|)
    ensures |d'.vram| == |d.vram|
    ensures |d.queue| <= REDRAW_FIFO_LEN ==> |d'.queue| <= REDRAW_FIFO_LEN
  {
    match e
    case Nothing => d
    case Update(r) => Request(s, d, r)
    case Fill(colour, r) =>
      if VerifyRect(s, r) then
        Request(s, d.(vram := Filled(d.vram, s, colour, r), log := d.log + [Wrote(r)]), r)
      else d
    case Copy(x0, y0, dst) =>
      if VerifyRect(s, Source(x0, y0, dst)) && VerifyRect(s, dst) then
        Request(s, d.(vram := Copied(d.vram, s, x0, y0, dst), log := d.log + [Wrote(dst)]), dst)
      else d
    case Cursor(c) => d.(log := d.log + [CursorDefined(c)])
  }

  // ----- what the commands draw -----

  predicate CopyVerified(s: Surface, x0: int, y0: int, dst: Rect) {
    VerifyRect(s, Source(x0, y0, dst)) && VerifyRect(s, dst)
  }

  /** A copy moves the pixels: each one of the destination is what the source pixel was. */
  lemma CopyDraws(s: Surface, d: Display, x0: int, y0: int, dst: Rect, dx: int, dy: int, b: int)
    requires s.Fits(|d.vram|) && CopyVerified(s, x0, y0, dst)
    requires 0 <= dx < dst.w && 0 <= dy < dst.h && 0 <= b < s.bypp
    ensures 0 <= s.Address(x0 + dx, y0 + dy) + b < |d.vram|
    ensures 0 <= s.Address(dst.x + dx, dst.y + dy) + b < |d.vram|
    ensures Apply(s, d, Copy(x0, y0, dst)).vram[s.Address(dst.x + dx, dst.y + dy) + b]
         == d.vram[s.Address(x0 + dx, y0 + dy) + b]
  {
    hide Copied;
    CopiedPixels(d.vram, s, x0, y0, dst, dx, dy, b);
  }

  /** A fill sets the pixels of its rectangle to the colour. */
  lemma FillDraws(s: Surface, d: Display, colour: Uint32, r: Rect, x: int, y: int, b: nat)
    requires s.Fits(|d.vram|) && VerifyRect(s, r) && Inside(r, x, y) && b < s.bypp
    ensures 0 <= s.Address(x, y) + b < |d.vram|
    ensures Apply(s, d, Fill(colour, r)).vram[s.Address(x, y) + b] == LittleEndianByte(colour, b)
  {
    hide Filled, LittleEndianByte;
    FilledPixels(d.vram, s, colour, r, x, y, b);
  }

  /** The rectangle that a command draws. */
  function Drawn(s: Surface, e: Effect): Rect {
    match e
    case Fill(_, r) => if VerifyRect(s, r) then r else Rect(0, 0, 0, 0)
    case Copy(x0, y0, dst) => if CopyVerified(s, x0, y0, dst) then dst else Rect(0, 0, 0, 0)
    case _ => Rect(0, 0, 0, 0)
  }

  /** Nothing else in VRAM changes; a command that draws nothing leaves all of it alone. */
  lemma DrawsNothingElse(s: Surface, d: Display, e: Effect, i: int)
    requires s.Fits(|d.vram|) && 0 <= i < |d.vram| && !CoversByte(s, Drawn(s, e), i)
    ensures Apply(s, d, e).vram[i] == d.vram[i]
  {
    hide VerifyRect, CoversByte;
    match e
    case Fill(colour, r) =>
      if VerifyRect(s, r) {
        assert !Bytes(s, r)(i);
      }
    case Copy(x0, y0, dst) =>
      if CopyVerified(s, x0, y0, dst) {
        assert !Bytes(s, dst)(i);
      }
    case _ =>
  }

  /** What a command adds to the log: its drawing, then its request; updates of the console only when the queue is full. */
  lemma ApplyLogs(s: Surface, d: Display, e: Effect)
    requires s.Fits(|d.vram|) && |d.queue| < 512
    ensures var d' := Apply(s, d, e);
      && d'.invalidated == d.invalidated
      && match e
         case Nothing => d' == d
         case Update(r) => d'.log == d.log + [Requested(r)] && d'.queue == d.queue + [r]
         case Fill(_, r) =>
           if VerifyRect(s, r) then d'.log == d.log + [Wrote(r), Requested(r)] && d'.queue == d.queue + [r] else d' == d
         case Copy(x0, y0, dst) =>
           if CopyVerified(s, x0, y0, dst) then d'.log == d.log + [Wrote(dst), Requested(dst)] && d'.queue == d.queue + [dst]
           else d' == d
         case Cursor(c) => d'.log == d.log + [CursorDefined(c)] && d'.queue == d.queue
  {
    hide VerifyRect, Filled, Copied;
  }

  // ----- damage -----

  predicate Shows(e: Event, x: int, y: int) {
    e.ShownAll? || (e.Shown? && Inside(e.rect, x, y))
  }

  ghost predicate ShownAfter(log: seq<Event>, i: int, x: int, y: int) {
    exists j :: 0 <= i < j < |log| && Shows(log[j], x, y)
  }

  /** Pixel (x, y) was written by event `i` and no later update has covered it. */
  ghost predicate Outstanding(log: seq<Event>, i: nat, x: int, y: int) {
    Written(log, i, x, y) && !ShownAfter(log, i, x, y)
  }

  predicate Written(log: seq<Event>, i: nat, x: int, y: int) {
    i < |log| && log[i].Wrote? && Inside(log[i].rect, x, y)
  }

  /** Every pixel ever written was shown after the write. */
  ghost predicate AllShown(log: seq<Event>) {
    forall i: nat, x, y :: Written(log, i, x, y) ==> ShownAfter(log, i, x, y)
  }

  /** Flushing the queue onto `s` will show pixel (x, y). */
  ghost predicate Covered(s: Surface, queue: seq<Rect>, x: int, y: int) {
    exists q :: 0 <= q < |queue| && Inside(Clipped(s, queue[q]), x, y)
  }

  /** What event `i` wrote to pixel (x, y) has been shown since, or will be when the queue is flushed onto `s`. */
  ghost predicate WillBeShown(s: Surface, d: Display, i: nat, x: int, y: int) {
    ShownAfter(d.log, i, x, y) || Covered(s, d.queue, x, y)
  }

  ghost predicate Tracked(s: Surface, d: Display) {
    forall i: nat, x, y :: Written(d.log, i, x, y) ==> WillBeShown(s, d, i, x, y)
  }

  /** The queue never holds more than its 512 slots, and damage is tracked unless a full update is already owed. */
  ghost predicate Accounted(s: Surface, d: Display) {
    |d.queue| <= REDRAW_FIFO_LEN && (d.invalidated || Tracked(s, d))
  }

  ghost predicate AnyShows(log: seq<Event>, x: int, y: int) {
    exists q :: 0 <= q < |log| && Shows(log[q], x, y)
  }

  lemma ShownByMore(log: seq<Event>, more: seq<Event>, i: nat, x: int, y: int)
    requires i < |log|
    ensures ShownAfter(log + more, i, x, y) <==> ShownAfter(log, i, x, y) || AnyShows(more, x, y)
  {
    if ShownAfter(log, i, x, y) {
      var j :| i < j < |log| && Shows(log[j], x, y);
      assert (log + more)[j] == log[j];
    }
    if AnyShows(more, x, y) {
      var q :| 0 <= q < |more| && Shows(more[q], x, y);
      assert (log + more)[|log| + q] == more[q];
    }
    if ShownAfter(log + more, i, x, y) {
      var j :| i < j < |log + more| && Shows((log + more)[j], x, y);
      assert j < |log| || more[j - |log|] == (log + more)[j];
    }
  }

  lemma FlushShows(s: Surface, d: Display, i: nat, x: int, y: int)
    requires !d.invalidated && i < |d.log|
    ensures ShownAfter(Flush(s, d).log, i, x, y) <==> WillBeShown(s, d, i, x, y)
  {
    var more := ShownRects(s, d.queue);
    ShownByMore(d.log, more, i, x, y);
    if Covered(s, d.queue, x, y) {
      var q :| 0 <= q < |d.queue| && Inside(Clipped(s, d.queue[q]), x, y);
      assert Shows(more[q], x, y);
    }
    if AnyShows(more, x, y) {
      var q :| 0 <= q < |more| && Shows(more[q], x, y);
      assert Inside(Clipped(s, d.queue[q]), x, y);
    }
  }

  /** Flushing the queue of a display that is not invalidated shows all damage exactly if it was tracked. */
  lemma FlushShowsAll(s: Surface, d: Display)
    requires !d.invalidated
    ensures AllShown(Flush(s, d).log) <==> Tracked(s, d)
  {
    forall i: nat, x, y
      ensures Written(Flush(s, d).log, i, x, y) <==> Written(d.log, i, x, y)
      ensures i < |d.log| ==> (ShownAfter(Flush(s, d).log, i, x, y) <==> WillBeShown(s, d, i, x, y))
    {
      if i < |d.log| {
        FlushShows(s, d, i, x, y);
      }
    }
  }

  // ----- what the commands do to damage -----

  /** A request adds its own rectangle, cut to the surface, and loses none, even when the queue is full. */
  lemma RequestShows(s: Surface, d: Display, r: Rect, i: nat, x: int, y: int)
    requires !d.invalidated && i < |d.log|
    ensures var d' := Request(s, d, r);
      WillBeShown(s, d', i, x, y) <==> WillBeShown(s, d, i, x, y) || Inside(Clipped(s, r), x, y)
  {
    hide VerifyRect;
    var d1 := if |d.queue| >= REDRAW_FIFO_LEN then Flush(s, d) else d;
    FlushShows(s, d, i, x, y);
    assert WillBeShown(s, d1, i, x, y) <==> WillBeShown(s, d, i, x, y);
    ShownByMore(d1.log, [Requested(r)], i, x, y);
    CoveredByMore(s, d1.queue, r, x, y);
  }

  lemma CoveredByMore(s: Surface, queue: seq<Rect>, r: Rect, x: int, y: int)
    ensures Covered(s, queue + [r], x, y) <==> Covered(s, queue, x, y) || Inside(Clipped(s, r), x, y)
  {
    hide Clipped, Inside;
    var more := queue + [r];
    assert more[|queue|] == r;
    if Covered(s, queue, x, y) {
      var q :| 0 <= q < |queue| && Inside(Clipped(s, queue[q]), x, y);
      assert more[q] == queue[q];
    }
  }

  /** The pixels of the surface for which a command requests an update. */
  predicate Asks(s: Surface, e: Effect, x: int, y: int) {
    match e
    case Update(r) => Inside(Clipped(s, r), x, y)
    case Fill(_, r) => VerifyRect(s, r) && Inside(r, x, y)
    case Copy(x0, y0, dst) => VerifyRect(s, Source(x0, y0, dst)) && VerifyRect(s, dst) && Inside(dst, x, y)
    case _ => false
  }

  /** Nothing a command does to the log touches what was there, and a request writes nothing. */
  lemma RequestRecords(s: Surface, d: Display, r: Rect)
    ensures var d' := Request(s, d, r);
      && d.log <= d'.log && d'.invalidated == d.invalidated
      && forall i: nat, x, y :: Written(d'.log, i, x, y) <==> Written(d.log, i, x, y)
  {
    hide VerifyRect, Inside;
  }

  lemma LogShows(s: Surface, d: Display, d': Display, e: Event, i: nat, x: int, y: int)
    requires i < |d.log| && d'.log == d.log + [e] && d'.queue == d.queue && !e.Shown? && !e.ShownAll?
    ensures WillBeShown(s, d', i, x, y) <==> WillBeShown(s, d, i, x, y)
  {
    ShownByMore(d.log, [e], i, x, y);
  }

  /** A command makes sure that what was written before it is shown exactly where it asks for an update. */
  lemma ApplyShows(s: Surface, d: Display, e: Effect, i: nat, x: int, y: int)
    requires s.Fits(|d.vram|) && !d.invalidated && i < |d.log|
    ensures WillBeShown(s, Apply(s, d, e), i, x, y) <==> WillBeShown(s, d, i, x, y) || Asks(s, e, x, y)
  {
    hide WillBeShown, Request, VerifyRect, Filled, Copied;
    match e
    case Nothing =>
    case Update(r) => RequestShows(s, d, r, i, x, y);
    case Fill(colour, r) =>
      if VerifyRect(s, r) {
        WriteShows(s, d, Filled(d.vram, s, colour, r), r, i, x, y);
      }
    case Copy(x0, y0, dst) =>
      if VerifyRect(s, Source(x0, y0, dst)) && VerifyRect(s, dst) {
        WriteShows(s, d, Copied(d.vram, s, x0, y0, dst), dst, i, x, y);
      }
    case Cursor(c) => LogShows(s, d, Apply(s, d, e), CursorDefined(c), i, x, y);
  }

  lemma WriteShows(s: Surface, d: Display, vram: seq<Byte>, r: Rect, i: nat, x: int, y: int)
    requires !d.invalidated && i < |d.log| && VerifyRect(s, r)
    ensures var dw := d.(vram := vram, log := d.log + [Wrote(r)]);
      WillBeShown(s, Request(s, dw, r), i, x, y) <==> WillBeShown(s, d, i, x, y) || Inside(r, x, y)
  {
    hide WillBeShown, Request, VerifyRect;
    var dw := d.(vram := vram, log := d.log + [Wrote(r)]);
    LogShows(s, d, dw, Wrote(r), i, x, y);
    RequestShows(s, dw, r, i, x, y);
  }

  /** A write to a rectangle of the surface, followed by the request for it, is tracked: the order the engine uses. */
  lemma WriteTracked(s: Surface, d: Display, vram: seq<Byte>, r: Rect)
    requires !d.invalidated && VerifyRect(s, r)
    ensures var d' := Request(s, d.(vram := vram, log := d.log + [Wrote(r)]), r);
      && d.log <= d'.log && !d'.invalidated
      && (forall i: nat, x, y :: i < |d.log| ==> (Written(d'.log, i, x, y) <==> Written(d.log, i, x, y)))
      && (forall i: nat, x, y :: i >= |d.log| && Written(d'.log, i, x, y) ==> WillBeShown(s, d', i, x, y))
  {
    hide WillBeShown, Request, VerifyRect, Inside;
    var dw := d.(vram := vram, log := d.log + [Wrote(r)]);
    RequestRecords(s, dw, r);
    forall i: nat, x, y | i >= |d.log| && Written(Request(s, dw, r).log, i, x, y)
      ensures WillBeShown(s, Request(s, dw, r), i, x, y)
    {
      assert Written(dw.log, i, x, y);
      RequestShows(s, dw, r, i, x, y);
    }
  }

  /** What a command itself writes is tracked, and it leaves the record of what was written before alone. */
  lemma ApplyWrites(s: Surface, d: Display, e: Effect)
    requires s.Fits(|d.vram|) && !d.invalidated
    ensures var d' := Apply(s, d, e);
      && d.log <= d'.log && !d'.invalidated
      && (forall i: nat, x, y :: i < |d.log| ==> (Written(d'.log, i, x, y) <==> Written(d.log, i, x, y)))
      && (forall i: nat, x, y :: i >= |d.log| && Written(d'.log, i, x, y) ==> WillBeShown(s, d', i, x, y))
  {
    hide WillBeShown, Request, VerifyRect, Inside, Filled, Copied;
    match e
    case Nothing =>
    case Update(r) => RequestRecords(s, d, r);
    case Fill(colour, r) =>
      if VerifyRect(s, r) {
        WriteTracked(s, d, Filled(d.vram, s, colour, r), r);
      }
    case Copy(x0, y0, dst) =>
      if VerifyRect(s, Source(x0, y0, dst)) && VerifyRect(s, dst) {
        WriteTracked(s, d, Copied(d.vram, s, x0, y0, dst), dst);
      }
    case Cursor(c) =>
  }

  lemma ApplyInvalidated(s: Surface, d: Display, e: Effect)
    requires s.Fits(|d.vram|) && d.invalidated
    ensures Apply(s, d, e).invalidated
  {
    hide VerifyRect;
  }

  /** No command loses damage, whatever its operands and however full the queue. */
  lemma ApplyAccounted(s: Surface, d: Display, e: Effect)
    requires s.Fits(|d.vram|) && Accounted(s, d)
    ensures Accounted(s, Apply(s, d, e))
  {
    hide Apply, WillBeShown, Written, Asks;
    if d.invalidated {
      ApplyInvalidated(s, d, e);
    } else {
      ApplyWrites(s, d, e);
      forall i: nat, x, y | i < |d.log| && Written(d.log, i, x, y)
        ensures WillBeShown(s, Apply(s, d, e), i, x, y)
      {
        ApplyShows(s, d, e, i, x, y);
      }
    }
  }

  lemma FullUpdateShowsAll(log: seq<Event>)
    ensures AllShown(log + [ShownAll])
  {
    forall i: nat, x, y | Written(log + [ShownAll], i, x, y)
      ensures ShownAfter(log + [ShownAll], i, x, y)
    {
      assert i < |log| && Shows([ShownAll][0], x, y);
      ShownByMore(log, [ShownAll], i, x, y);
    }
  }
}
