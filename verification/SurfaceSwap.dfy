/**
 * A history in which damage is lost: the size check compares only width, height and depth, so it does not notice that
 * the surface was another one in between (hw/display/vmware_vga.c).
 */
module SurfaceSwap {
  import opened Words
  import opened Surfaces
  import opened Damage
  import opened Fifo
  import opened FifoStream
  import opened GuestCommands
  import opened SvgaRuns

  // ----- one command in an empty FIFO -----

  function EmptyRing(): (words: seq<Uint32>)
    ensures |words| == FIFO_WORDS
  {
    seq(FIFO_WORDS, i => if i == FIFO_MAX then 16 + 10 * 1024 else if i <= FIFO_STOP then 16 else 0)
  }

  function OneCommand(e: Effect): (words: seq<Uint32>)
    requires Encodable(e)
    ensures |words| == FIFO_WORDS
  {
    EmptyRingIsEmpty();
    PutAll(EmptyRing(), Encode(e))
  }

  lemma EmptyRingIsEmpty()
    ensures WellFormed(EmptyRing()) && Length(EmptyRing()) == 0 && Capacity(EmptyRing()) == 2560
  {
  }

  lemma NothingRuns(words: seq<Uint32>)
    requires |words| == FIFO_WORDS && Length(words) == 0
    ensures AfterRun(words) == words && RunEffects(words) == []
  {
  }

  /** The run carries the command out and leaves nothing pending. */
  lemma OneCommandRuns(e: Effect)
    requires Encodable(e) && |Encode(e)| < MAX_LOOP
    ensures RunEffects(OneCommand(e)) == [e] && Length(AfterRun(OneCommand(e))) == 0
  {
    hide Encode, Encodable, EmptyRing, PutAll, Clean, Execute, AfterRun, RunEffects, Length, Capacity;
    EmptyRingIsEmpty();
    var p := Encode(e);
    PutAllAppends(EmptyRing(), p);
    ProgramRoundTrip([e]);
    assert EncodeAll([e]) == p by { assert [e][1..] == [] && EncodeAll([]) == []; }
    assert Pending(OneCommand(e)) == p;
    EnoughCommands(p, |p|, MAX_LOOP);
    RunConsumes(OneCommand(e));
  }

  // ----- the history -----

  lemma {:induction false} HistoryGrows(v: Device, ops: seq<Operation>, op: Operation)
    requires v.Valid() && LegalHistory(v, ops) && Legal(After(v, ops), op)
    ensures LegalHistory(v, ops + [op]) && After(v, ops + [op]) == Step(After(v, ops), op)
    decreases |ops|
  {
    hide Step, Legal;
    if ops == [] {
      assert ([] + [op])[1..] == [];
    } else {
      assert (ops + [op])[1..] == ops[1..] + [op];
      HistoryGrows(Step(v, ops[0]), ops[1..], op);
    }
  }

  /** Three more legal operations. */
  lemma Extend(v: Device, ops: seq<Operation>, a: Operation, b: Operation, c: Operation) returns (ops': seq<Operation>)
    requires v.Valid() && LegalHistory(v, ops) && Legal(After(v, ops), a)
    requires Legal(Step(After(v, ops), a), b) && Legal(Step(Step(After(v, ops), a), b), c)
    ensures LegalHistory(v, ops') && After(v, ops') == Step(Step(Step(After(v, ops), a), b), c)
  {
    hide LegalHistory, After, Step, Legal;
    HistoryGrows(v, ops, a);
    HistoryGrows(v, ops + [a], b);
    HistoryGrows(v, ops + [a] + [b], c);
    ops' := ops + [a] + [b] + [c];
  }

  const NARROW := Surface(1, 1, 4, 4)
  const WIDE := Surface(2, 1, 4, 8)
  const PIXEL := Rect(1, 0, 1, 1)
  const BLACK := Fill(0, PIXEL)
  const START := Device(Display(Repeated(0, 8), [], false, []), NARROW, EmptyRing(), false, false, 0, 0)

  /** The mode is one pixel; the device is up and the display has been updated once. */
  lemma Presented() returns (ops: seq<Operation>)
    ensures Initial(START) && LegalHistory(START, ops)
    ensures After(START, ops) ==
      Device(Display(Repeated(0, 8), [], false, [ShownAll]), NARROW, EmptyRing(), true, true, 1, 1)
  {
    hide LegalHistory, EmptyRing, AfterRun, RunEffects, Length;
    EmptyRingIsEmpty();
    NothingRuns(EmptyRing());
    assert LegalHistory(START, []) && After(START, []) == START by { NoHistory(START); }
    ops := Extend(START, [], WriteWidth(1), WriteHeight(1), WriteEnable(1));
    ops := Extend(START, ops, InvalidateDisplay, WriteConfigDone(1), UpdateDisplay);
  }

  lemma NoHistory(v: Device)
    requires v.Valid()
    ensures LegalHistory(v, []) && After(v, []) == v
  {
  }

  lemma FillRecorded(d: Display)
    requires |d.vram| == 8 && d.queue == []
    ensures var d' := ApplyAll(WIDE, d, [BLACK]);
      && |d'.vram| == 8 && d'.invalidated == d.invalidated && d'.queue == [PIXEL]
      && d'.log == d.log + [Wrote(PIXEL), Requested(PIXEL)]
  {
    assert [BLACK][..0] == [] && ApplyAll(WIDE, d, []) == d;
    assert ApplyAll(WIDE, d, [BLACK]) == Apply(WIDE, d, BLACK);
  }

  /** While the VGA core has a wider surface on the console, the guest fills a pixel that only that surface has. */
  lemma FilledOffSurface() returns (ops: seq<Operation>)
    ensures Initial(START) && LegalHistory(START, ops)
    ensures var v := After(START, ops);
      && v.display.queue == [PIXEL] && !v.display.invalidated && v.display.log == [ShownAll, Wrote(PIXEL), Requested(PIXEL)]
      && v.surface == WIDE && v.enable && v.config && v.newWidth == v.newHeight == 1
      && |v.display.vram| == 8 && Length(v.fifo) == 0
  {
    hide LegalHistory, EmptyRing, AfterRun, RunEffects, Length, OneCommand, Apply, ApplyAll;
    ops := Presented();
    FillRecorded(After(START, ops).display);
    OneCommandRuns(BLACK);
    ops := Extend(START, ops, WriteConfigDone(0), ReplaceSurface(WIDE), WriteConfigDone(1));
    ops := Extend(START, ops, StoreFifo(OneCommand(BLACK)), WriteSync, WriteConfigDone(1));
  }

  /**
   * Damage can be lost. Once the VGA core has put a surface of the old size back, the size check sees no difference,
   * the queued rectangle is not on the surface any more, and the update leaves the pixel unshown.
   */
  lemma DamageIsLost() returns (ops: seq<Operation>)
    ensures Initial(START) && LegalHistory(START, ops)
    ensures After(START, ops).SvgaMode() && Legal(After(START, ops), UpdateDisplay)
    ensures !AllShown(Step(After(START, ops), UpdateDisplay).display.log)
  {
    hide LegalHistory, EmptyRing, AfterRun, RunEffects, Length;
    ops := FilledOffSurface();
    ops := Extend(START, ops, WriteConfigDone(0), ReplaceSurface(NARROW), WriteConfigDone(1));
    var v := After(START, ops);
    NothingRuns(v.fifo);
    UpdateShowsExactly(v);
    assert Outstanding(v.display.log, 1, 1, 0);
    NoRequests(v.surface, 1, 0);
    assert !Covered(v.surface, v.display.queue, 1, 0);
  }
}
