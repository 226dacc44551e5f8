/** Whole histories of the SVGA device, as values: no damage is ever lost (hw/display/vmware_vga.c). */
module SvgaRuns {
  import opened Words
  import opened Surfaces
  import opened Damage
  import opened Fifo
  import opened FifoStream

  /** The device only ever asks for this depth. */
  const NEW_DEPTH := 32

  datatype Device = Device(display: Display, surface: Surface, fifo: seq<Uint32>,
                           enable: bool, config: bool, newWidth: nat, newHeight: nat)
  {
    predicate Valid() {
      |fifo| == FIFO_WORDS && surface.Fits(|display.vram|) && |display.queue| <= REDRAW_FIFO_LEN
    }

    /** In standard VGA mode the FIFO and the redraw queue are not looked at. */
    predicate SvgaMode() {
      enable && config
    }
  }

  /** What can happen to the device: guest stores and register writes, the console's callbacks, and reset. */
  datatype Operation =
    | StoreFifo(fifo: seq<Uint32>)
    | WriteEnable(value: Uint32)
    | WriteWidth(value: Uint32)
    | WriteHeight(value: Uint32)
    | WriteBitsPerPixel(value: Uint32)
    | WriteConfigDone(value: Uint32)
    | WriteSync
    | UpdateDisplay
    | ReplaceSurface(surface: Surface)  // by the VGA core, which drives the display in standard VGA mode
    | InvalidateDisplay
    | Reset

  /** The surface the mode registers ask for. */
  function RequestedSurface(v: Device): Surface {
    Surface(v.newWidth, v.newHeight, NEW_DEPTH / 8, NEW_DEPTH * v.newWidth / 8)
  }

  predicate SizeChanged(v: Device) {
    v.newWidth != v.surface.width || v.newHeight != v.surface.height || NEW_DEPTH != 8 * v.surface.bypp
  }

  function CheckSize(v: Device): Device {
    if SizeChanged(v) then v.(surface := RequestedSurface(v), display := v.display.(invalidated := true)) else v
  }

  /** `vmsvga_fifo_run` on the whole device. */
  ghost function FifoRun(v: Device): (v': Device)
    requires v.Valid()
    ensures v'.Valid() && |v'.display.vram| == |v.display.vram|
    ensures v' == v.(fifo := v'.fifo, display := v'.display)
  {
    if v.SvgaMode() then
      v.(fifo := AfterRun(v.fifo), display := ApplyAll(v.surface, v.display, RunEffects(v.fifo)))
    else v
  }

  /** The end of `vmsvga_update_display`: flush the queue, then the full update if one is owed. */
  function Present(s: Surface, d: Display): Display {
    var d := Flush(s, d);
    if d.invalidated then d.(invalidated := false, log := d.log + [ShownAll]) else d
  }

  /**
   * What the source takes for granted: guest stores keep the size of the FIFO, and surfaces fit in VRAM. Only in
   * standard VGA mode does the VGA core drive the display and put surfaces of its own on the console.
   */
  predicate Legal(v: Device, op: Operation) {
    match op
    case StoreFifo(fifo) => |fifo| == FIFO_WORDS
    case ReplaceSurface(surface) => !v.SvgaMode() && surface.Fits(|v.display.vram|)
    case UpdateDisplay => v.SvgaMode() ==> CheckSize(v).surface.Fits(|v.display.vram|)
    case _ => true
  }

  ghost function Step(v: Device, op: Operation): (v': Device)
    requires v.Valid() && Legal(v, op)
    ensures v'.Valid()
  {
    match op
    case StoreFifo(fifo) => v.(fifo := fifo)
    case WriteEnable(value) => v.(enable := value != 0, display := v.display.(invalidated := true))
    case WriteWidth(value) =>
      if value <= MAX_WIDTH then v.(newWidth := value, display := v.display.(invalidated := true)) else v
    case WriteHeight(value) =>
      if value <= MAX_HEIGHT then v.(newHeight := value, display := v.display.(invalidated := true)) else v
    case WriteBitsPerPixel(value) =>
      if value != 32 then v.(config := false, display := v.display.(invalidated := true)) else v
    case WriteConfigDone(value) => v.(config := value != 0)
    case WriteSync => FifoRun(v)
    case UpdateDisplay =>
      if v.SvgaMode() then
        var v1 := FifoRun(CheckSize(v));
        v1.(display := Present(v1.surface, v1.display))
      else v
    case ReplaceSurface(surface) => v.(surface := surface)
    case InvalidateDisplay => if v.enable then v.(display := v.display.(invalidated := true)) else v
    case Reset => v.(enable := false, config := false, display := v.display.(queue := []))
  }

  // ----- when a display update shows everything -----

  /** Some command requests an update of pixel (x, y). */
  ghost predicate Requests(s: Surface, effects: seq<Effect>, x: int, y: int) {
    exists k :: 0 <= k < |effects| && Asks(s, effects[k], x, y)
  }

  lemma RequestsOneMore(s: Surface, effects: seq<Effect>, x: int, y: int)
    requires effects != []
    ensures var n := |effects| - 1;
      Requests(s, effects, x, y) <==> Requests(s, effects[..n], x, y) || Asks(s, effects[n], x, y)
  {
    hide Asks;
    var n := |effects| - 1;
    if Requests(s, effects[..n], x, y) {
      var k :| 0 <= k < n && Asks(s, effects[..n][k], x, y);
      assert effects[k] == effects[..n][k];
    }
    if Requests(s, effects, x, y) {
      var k :| 0 <= k < |effects| && Asks(s, effects[k], x, y);
      assert k < n ==> effects[..n][k] == effects[k];
    }
  }

  lemma {:induction false} RunWrites(s: Surface, d: Display, effects: seq<Effect>)
    requires s.Fits(|d.vram|) && !d.invalidated
    ensures var d' := ApplyAll(s, d, effects);
      && d.log <= d'.log && !d'.invalidated
      && (forall i: nat, x, y :: i < |d.log| ==> (Written(d'.log, i, x, y) <==> Written(d.log, i, x, y)))
      && (forall i: nat, x, y :: i >= |d.log| && Written(d'.log, i, x, y) ==> WillBeShown(s, d', i, x, y))
    decreases |effects|
  {
    hide Apply, Inside, WillBeShown, Asks;
    if effects != [] {
      var n := |effects| - 1;
      var d1 := ApplyAll(s, d, effects[..n]);
      var d2 := Apply(s, d1, effects[n]);
      RunWrites(s, d, effects[..n]);
      ApplyWrites(s, d1, effects[n]);
      assert ApplyAll(s, d, effects) == d2;
      forall i: nat, x, y | i >= |d.log| && Written(d2.log, i, x, y)
        ensures WillBeShown(s, d2, i, x, y)
      {
        if i < |d1.log| {
          ApplyShows(s, d1, effects[n], i, x, y);
        }
      }
    }
  }

  lemma {:induction false} RunShows(s: Surface, d: Display, effects: seq<Effect>, i: nat, x: int, y: int)
    requires s.Fits(|d.vram|) && !d.invalidated && i < |d.log|
    ensures WillBeShown(s, ApplyAll(s, d, effects), i, x, y) <==> WillBeShown(s, d, i, x, y) || Requests(s, effects, x, y)
    decreases |effects|
  {
    hide Apply, WillBeShown, Asks, Requests;
    if effects == [] {
      NoRequests(s, x, y);
    } else {
      var n := |effects| - 1;
      RunShows(s, d, effects[..n], i, x, y);
      RunWrites(s, d, effects[..n]);
      ApplyShows(s, ApplyAll(s, d, effects[..n]), effects[n], i, x, y);
      RequestsOneMore(s, effects, x, y);
    }
  }

  lemma NoRequests(s: Surface, x: int, y: int)
    ensures !Requests(s, [], x, y)
  {
  }

  /** Every outstanding pixel is in a queued rectangle or in one that `effects` request, as cut to the surface. */
  ghost predicate DamageReached(s: Surface, d: Display, effects: seq<Effect>) {
    forall i: nat, x, y :: Outstanding(d.log, i, x, y) ==> Covered(s, d.queue, x, y) || Requests(s, effects, x, y)
  }

  lemma RunTracksExactly(s: Surface, d: Display, effects: seq<Effect>)
    requires s.Fits(|d.vram|) && !d.invalidated
    ensures Tracked(s, ApplyAll(s, d, effects)) <==> DamageReached(s, d, effects)
  {
    hide ApplyAll, Written, ShownAfter, Covered, Requests;
    var d' := ApplyAll(s, d, effects);
    RunWrites(s, d, effects);
    if DamageReached(s, d, effects) {
      forall i: nat, x, y | Written(d'.log, i, x, y)
        ensures WillBeShown(s, d', i, x, y)
      {
        if i < |d.log| {
          RunShows(s, d, effects, i, x, y);
          assert ShownAfter(d.log, i, x, y) || Outstanding(d.log, i, x, y);
        }
      }
    }
    if Tracked(s, d') {
      forall i: nat, x, y | Outstanding(d.log, i, x, y)
        ensures Covered(s, d.queue, x, y) || Requests(s, effects, x, y)
      {
        WrittenBefore(d.log, i, x, y);
        RunShows(s, d, effects, i, x, y);
        assert Written(d'.log, i, x, y);
      }
    }
  }

  lemma WrittenBefore(log: seq<Event>, i: nat, x: int, y: int)
    ensures Written(log, i, x, y) ==> i < |log|
  {
  }

  /** The end of `vmsvga_update_display` shows everything exactly if a full update is owed or damage is tracked. */
  lemma PresentShowsAll(s: Surface, d: Display)
    ensures AllShown(Present(s, d).log) <==> d.invalidated || Tracked(s, d)
    ensures Present(s, d).queue == [] && !Present(s, d).invalidated
  {
    hide Flush, AllShown, Tracked;
    FlushedState(s, d);
    if d.invalidated {
      FullUpdateShowsAll(Flush(s, d).log);
    } else {
      FlushShowsAll(s, d);
    }
  }

  lemma FlushedState(s: Surface, d: Display)
    ensures Flush(s, d).queue == [] && Flush(s, d).invalidated == d.invalidated
  {
  }

  lemma {:induction false} RunInvalidated(s: Surface, d: Display, effects: seq<Effect>)
    requires s.Fits(|d.vram|) && d.invalidated
    ensures ApplyAll(s, d, effects).invalidated
    decreases |effects|
  {
    hide Apply;
    if effects != [] {
      RunInvalidated(s, d, effects[..|effects| - 1]);
      ApplyInvalidated(s, ApplyAll(s, d, effects[..|effects| - 1]), effects[|effects| - 1]);
    }
  }

  /**
   * Exactly when a display update leaves no damage unshown, whatever happened before: a full update is owed, or the
   * size check notices that the surface is not the one asked for, or all outstanding damage is in a rectangle that is
   * queued or about to be requested by the pending commands, as far as these rectangles lie on the surface.
   */
  lemma UpdateShowsExactly(v: Device)
    requires v.Valid() && v.SvgaMode() && Legal(v, UpdateDisplay)
    ensures AllShown(Step(v, UpdateDisplay).display.log)
       <==> v.display.invalidated || SizeChanged(v) || DamageReached(v.surface, v.display, RunEffects(v.fifo))
  {
    hide Tracked, AllShown, Present, AfterRun, RunEffects, ApplyAll, DamageReached, SizeChanged;
    var v1 := CheckSize(v);
    PresentShowsAll(v1.surface, ApplyAll(v1.surface, v1.display, RunEffects(v.fifo)));
    if v1.display.invalidated {
      RunInvalidated(v1.surface, v1.display, RunEffects(v.fifo));
    } else {
      RunTracksExactly(v.surface, v.display, RunEffects(v.fifo));
      RunWrites(v.surface, v.display, RunEffects(v.fifo));
    }
  }

  /**
   * In particular, when all damage has been queued, what decides is the surface: unless a full update is owed or the
   * size check forces one, everything is shown exactly if every outstanding pixel lies on the surface.
   */
  lemma QueuedDamageExactly(v: Device)
    requires v.Valid() && v.SvgaMode() && Legal(v, UpdateDisplay)
    requires forall i: nat, x, y :: Outstanding(v.display.log, i, x, y) ==>
      exists q :: 0 <= q < |v.display.queue| && Inside(v.display.queue[q], x, y)
    ensures AllShown(Step(v, UpdateDisplay).display.log)
       <==> (|| v.display.invalidated || SizeChanged(v)
             || forall i: nat, x, y :: Outstanding(v.display.log, i, x, y) ==> Inside(v.surface.Whole(), x, y))
  {
    hide Step, Outstanding, SizeChanged, RunEffects, AllShown, Legal;
    UpdateShowsExactly(v);
    var s, queue, effects := v.surface, v.display.queue, RunEffects(v.fifo);
    forall i: nat, x, y | Outstanding(v.display.log, i, x, y)
      ensures Covered(s, queue, x, y) || Requests(s, effects, x, y) <==> Inside(s.Whole(), x, y)
    {
      OnSurfaceOnly(s, queue, effects, x, y);
      var q :| 0 <= q < |queue| && Inside(queue[q], x, y);
      assert Inside(s.Whole(), x, y) ==> Inside(Clipped(s, queue[q]), x, y);
    }
  }

  lemma OnSurfaceOnly(s: Surface, queue: seq<Rect>, effects: seq<Effect>, x: int, y: int)
    ensures Covered(s, queue, x, y) || Requests(s, effects, x, y) ==> Inside(s.Whole(), x, y)
  {
  }

  // ----- what a display update does -----

  /** The display as the pending commands find it: the size check may have come to owe a full update. */
  function Checked(v: Device): Display {
    v.display.(invalidated := v.display.invalidated || SizeChanged(v))
  }

  /**
   * A display update in SVGA mode leaves the surface at the mode asked for, which is kept if it was there already. The
   * pending commands are carried out on that surface, and the log ends with a full update exactly if one was owed.
   */
  lemma UpdateInstallsMode(v: Device)
    requires v.Valid() && v.SvgaMode() && Legal(v, UpdateDisplay)
    ensures var v' := Step(v, UpdateDisplay);
      && v'.surface.width == v.newWidth && v'.surface.height == v.newHeight && 8 * v'.surface.bypp == 32
      && (if SizeChanged(v) then v'.surface.stride == 4 * v.newWidth else v'.surface == v.surface)
      && v'.newWidth == v.newWidth && v'.newHeight == v.newHeight && !SizeChanged(v') && v'.SvgaMode()
    ensures var v' := Step(v, UpdateDisplay);
      && v'.surface.Fits(|v.display.vram|)
      && var d := ApplyAll(v'.surface, Checked(v), RunEffects(v.fifo));
      && v'.fifo == AfterRun(v.fifo) && v'.display.vram == d.vram
      && v'.display.queue == [] && !v'.display.invalidated
      && v'.display.log == d.log + if Checked(v).invalidated then [ShownAll] else ShownRects(v'.surface, d.queue)
  {
    hide AfterRun, RunEffects, ApplyAll;
    if Checked(v).invalidated {
      RunInvalidated(CheckSize(v).surface, Checked(v), RunEffects(v.fifo));
    } else {
      RunWrites(v.surface, v.display, RunEffects(v.fifo));
    }
  }

  /** From any state: a mode written by the guest is the surface after the next update, and everything is shown on it. */
  lemma ModeIsSet(v: Device, width: Uint32, height: Uint32)
    requires v.Valid() && width <= 5120 && height <= 2880 && Surface(width, height, 4, 4 * width).Fits(|v.display.vram|)
    ensures var ops := [WriteWidth(width), WriteHeight(height), WriteEnable(1), WriteConfigDone(1), UpdateDisplay];
      && LegalHistory(v, ops)
      && var v' := After(v, ops);
      && v'.surface.width == width && v'.surface.height == height && v'.surface.bypp == 4 && v'.SvgaMode()
      && AllShown(v'.display.log)
  {
    hide AfterRun, RunEffects, ApplyAll, AllShown, Present, FifoRun, SizeChanged, DamageReached;
    var ops := [WriteWidth(width), WriteHeight(height), WriteEnable(1), WriteConfigDone(1), UpdateDisplay];
    var w := v.(newWidth := width, newHeight := height, enable := true, config := true,
                display := v.display.(invalidated := true));
    UpdateInstallsMode(w);
    UpdateShowsExactly(w);
    FiveSteps(v, ops, w);
  }

  lemma FiveSteps(v: Device, ops: seq<Operation>, w: Device)
    requires v.Valid() && |ops| == 5 && Legal(v, ops[0]) && Legal(Step(v, ops[0]), ops[1])
    requires Legal(Step(Step(v, ops[0]), ops[1]), ops[2])
    requires Legal(Step(Step(Step(v, ops[0]), ops[1]), ops[2]), ops[3])
    requires w == Step(Step(Step(Step(v, ops[0]), ops[1]), ops[2]), ops[3]) && Legal(w, ops[4])
    ensures LegalHistory(v, ops) && After(v, ops) == Step(w, ops[4])
  {
    hide Step, Legal;
    var v1 := Step(v, ops[0]);
    var v2 := Step(v1, ops[1]);
    var v3 := Step(v2, ops[2]);
    assert ops[4..] == [ops[4]] && ops[4..][1..] == [];
    assert LegalHistory(w, ops[4..]) && After(w, ops[4..]) == Step(w, ops[4]);
    assert ops[3..][1..] == ops[4..] && ops[2..][1..] == ops[3..] && ops[1..][1..] == ops[2..];
    assert LegalHistory(v3, ops[3..]) && After(v3, ops[3..]) == Step(w, ops[4]);
    assert LegalHistory(v2, ops[2..]) && After(v2, ops[2..]) == Step(w, ops[4]);
    assert LegalHistory(v1, ops[1..]) && After(v1, ops[1..]) == Step(w, ops[4]);
  }

  /** A mode beyond the limits is not taken, and a depth other than 32 takes the device out of SVGA mode. */
  lemma BadModeIsRefused(v: Device, value: Uint32)
    requires v.Valid()
    ensures value > 5120 ==> Step(v, WriteWidth(value)) == v
    ensures value > 2880 ==> Step(v, WriteHeight(value)) == v
    ensures value != 32 ==>
      var v' := Step(v, WriteBitsPerPixel(value)); !v'.SvgaMode() && v'.display.invalidated && v'.enable == v.enable
    ensures value == 32 ==> Step(v, WriteBitsPerPixel(value)) == v
  {
    hide FifoRun;
  }

  /** Outside SVGA mode the guest's commands wait and the update is not this device's. Reset leads there. */
  lemma StandardModeRests(v: Device)
    requires v.Valid()
    ensures !v.SvgaMode() ==> Step(v, WriteSync) == v && Step(v, UpdateDisplay) == v
    ensures var v' := Step(v, Reset);
      && !v'.SvgaMode() && v'.display.queue == [] && v'.display.vram == v.display.vram && v'.fifo == v.fifo
      && v'.display.invalidated == v.display.invalidated && v'.surface == v.surface
    ensures !v.enable ==> Step(v, InvalidateDisplay) == v
    ensures !Step(v, WriteEnable(0)).SvgaMode() && !Step(v, WriteConfigDone(0)).SvgaMode()
  {
  }

  /** An invalidated display is updated in full the next time, whatever commands come in between. */
  lemma InvalidationIsPaid(v: Device)
    requires v.Valid() && v.SvgaMode() && Legal(v, UpdateDisplay)
    ensures Legal(Step(v, InvalidateDisplay), UpdateDisplay)
    ensures var log := Step(Step(v, InvalidateDisplay), UpdateDisplay).display.log;
      log != [] && log[|log| - 1] == ShownAll
  {
    hide AfterRun, RunEffects, ApplyAll, Present, FifoRun;
    UpdateInstallsMode(Step(v, InvalidateDisplay));
  }

  // ----- histories -----

  /** While the device is enabled, damage is queued, or a full update is owed or will be forced by the size check. */
  ghost predicate Safe(v: Device) {
    v.Valid() && (v.enable ==> SizeChanged(v) || Accounted(v.surface, v.display))
  }

  /**
   * A surface that loses nothing when the VGA core puts it on the console of an enabled device: it differs from the
   * mode asked for, so that the size check notices, or it shows all that is queued.
   */
  ghost predicate Harmless(v: Device, op: Operation) {
    op.ReplaceSurface? && v.enable ==> SizeChanged(v.(surface := op.surface)) || Accounted(op.surface, v.display)
  }

  lemma {:induction false} EffectsAccounted(s: Surface, d: Display, effects: seq<Effect>)
    requires s.Fits(|d.vram|) && Accounted(s, d)
    ensures Accounted(s, ApplyAll(s, d, effects))
    decreases |effects|
  {
    hide Apply, Accounted;
    if effects != [] {
      EffectsAccounted(s, d, effects[..|effects| - 1]);
      ApplyAccounted(s, ApplyAll(s, d, effects[..|effects| - 1]), effects[|effects| - 1]);
    }
  }

  lemma FifoRunSafe(v: Device)
    requires Safe(v)
    ensures Safe(FifoRun(v))
    ensures v.Valid() && v.SvgaMode() && Accounted(v.surface, v.display) ==> Accounted(v.surface, FifoRun(v).display)
  {
    hide Tracked, AfterRun, RunEffects, ApplyAll, Surface.Fits;
    if v.SvgaMode() && Accounted(v.surface, v.display) {
      EffectsAccounted(v.surface, v.display, RunEffects(v.fifo));
    }
  }

  lemma StepSafe(v: Device, op: Operation)
    requires Safe(v) && Legal(v, op) && Harmless(v, op)
    ensures Safe(Step(v, op))
    ensures op.UpdateDisplay? && v.SvgaMode() ==> AllShown(Step(v, op).display.log)
  {
    hide Tracked, AllShown, Present, FifoRun, Surface.Fits;
    match op
    case WriteSync => FifoRunSafe(v);
    case UpdateDisplay =>
      if v.SvgaMode() {
        var v1 := CheckSize(v);
        FifoRunSafe(v1);
        PresentShowsAll(v1.surface, FifoRun(v1).display);
        AllShownIsTracked(v1.surface, Present(v1.surface, FifoRun(v1).display));
      }
    case _ =>
  }

  lemma AllShownIsTracked(s: Surface, d: Display)
    requires AllShown(d.log)
    ensures Tracked(s, d)
  {
  }

  ghost predicate LegalHistory(v: Device, ops: seq<Operation>)
    requires v.Valid()
    decreases |ops|
  {
    ops == [] || (Legal(v, ops[0]) && LegalHistory(Step(v, ops[0]), ops[1..]))
  }

  ghost function After(v: Device, ops: seq<Operation>): (v': Device)
    requires v.Valid() && LegalHistory(v, ops)
    ensures v'.Valid()
    decreases |ops|
  {
    if ops == [] then v else After(Step(v, ops[0]), ops[1..])
  }

  ghost predicate HarmlessHistory(v: Device, ops: seq<Operation>)
    requires v.Valid() && LegalHistory(v, ops)
    decreases |ops|
  {
    ops == [] || (Harmless(v, ops[0]) && HarmlessHistory(Step(v, ops[0]), ops[1..]))
  }

  /** A device as it comes up: nothing drawn, nothing queued. */
  predicate Initial(v: Device) {
    v.Valid() && v.display.queue == [] && v.display.log == [] && !v.enable && !v.config
  }

  lemma {:induction false} HistorySafe(v: Device, ops: seq<Operation>)
    requires Safe(v) && LegalHistory(v, ops) && HarmlessHistory(v, ops)
    ensures Safe(After(v, ops))
    decreases |ops|
  {
    hide Accounted, SizeChanged, Step, Legal, Harmless;
    if ops != [] {
      StepSafe(v, ops[0]);
      HistorySafe(Step(v, ops[0]), ops[1..]);
    }
  }

  /**
   * No damage is lost. In any history, once `vmsvga_update_display` returns in SVGA mode, every pixel that any fill or
   * copy ever wrote is covered by an update of the console issued after that write, despite queue overflows, updates
   * dropped while invalidated, mode changes, resets, and surfaces of the VGA core that are harmless.
   */
  lemma NoDamageLost(v: Device, ops: seq<Operation>)
    requires Initial(v) && LegalHistory(v, ops) && HarmlessHistory(v, ops)
    requires After(v, ops).SvgaMode() && Legal(After(v, ops), UpdateDisplay)
    ensures AllShown(Step(After(v, ops), UpdateDisplay).display.log)
  {
    hide After, LegalHistory, HarmlessHistory, Step, Legal, AllShown;
    HistorySafe(v, ops);
    StepSafe(After(v, ops), UpdateDisplay);
  }
}
