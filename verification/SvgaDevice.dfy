/** The SVGA device as the source has it: fields and buffers updated in place (hw/display/vmware_vga.c). */
module SvgaDevice {
  import opened Words
  import opened Surfaces
  import opened Blit
  import opened Damage
  import opened Fifo
  import opened FifoStream
  import opened SvgaRuns

  class Svga {
    const vram: array<Byte>
    const fifo: array<Uint32>
    const redrawFifo: array<Rect>
    var redrawFifoLast: nat
    var surface: Surface
    var invalidated: bool
    var enable: bool
    var config: bool
    var newWidth: nat
    var newHeight: nat
    var syncing: bool
    var fifoMin: nat
    var fifoMax: nat
    var fifoNext: nat
    var fifoStop: nat
    ghost var log: seq<Event>
    /** Counts the calls of `vmsvga_fifo_read_raw`. */
    ghost var wordsRead: int

    ghost predicate Shaped()
      reads this`redrawFifoLast
    {
      && fifo.Length == FIFO_WORDS && vram as object != fifo
      && redrawFifo.Length == REDRAW_FIFO_LEN && redrawFifoLast <= REDRAW_FIFO_LEN
    }

    /** The size check can leave a surface that does not fit; everything else needs one that does. */
    ghost predicate Valid()
      reads this`redrawFifoLast, this`surface
    {
      Shaped() && surface.Fits(vram.Length)
    }

    ghost function View(): Display
      requires Shaped()
      reads this`redrawFifoLast, this`surface, this`invalidated, this`log, vram, redrawFifo
    {
      Display(vram[..], redrawFifo[..redrawFifoLast], invalidated, log)
    }

    ghost function Contents(): Device
      requires Shaped()
      reads this, vram, fifo, redrawFifo
    {
      Device(View(), surface, fifo[..], enable, config, newWidth, newHeight)
    }

    constructor (vramSize: nat, initial: Surface)
      requires initial.Fits(vramSize)
      ensures Valid() && Initial(Contents()) && fresh(vram) && fresh(fifo) && fresh(redrawFifo)
      ensures surface == initial && vram.Length == vramSize
    {
      vram := new Byte[vramSize];
      fifo := new Uint32[FIFO_WORDS];
      redrawFifo := new Rect[REDRAW_FIFO_LEN](_ => Rect(0, 0, 0, 0));
      redrawFifoLast, surface := 0, initial;
      invalidated, enable, config, syncing := false, false, false, false;
      newWidth, newHeight := 0, 0;
      fifoMin, fifoMax, fifoNext, fifoStop := 0, 0, 0, 0;
      log, wordsRead := [], 0;
    }

    // ----- redraw queue -----

    /** `vmsvga_update_rect`. The surface is laid over VRAM itself, so its row copies move nothing. */
    method UpdateRect(r: Rect)
      requires Valid()
      modifies this`log
      ensures log == old(log) + [Shown(Clipped(surface, r))]
    {
      var shown := r;
      if !VerifyRect(surface, r) {
        shown := Rect(0, 0, surface.width, surface.height);
      }
      log := log + [Shown(shown)];
    }

    method UpdateRectFlush()
      requires Valid()
      modifies this`log, this`redrawFifoLast
      ensures Valid() && View() == Flush(surface, old(View()))
    {
      if invalidated {
        redrawFifoLast := 0;
        return;
      }
      var i := 0;
      ghost var queue := redrawFifo[..redrawFifoLast];
      while i < redrawFifoLast
        invariant 0 <= i <= redrawFifoLast == |queue|
        invariant log == old(log) + ShownRects(surface, queue[..i])
      {
        UpdateRect(redrawFifo[i]);
        i := i + 1;
        assert queue[..i][..i - 1] == queue[..i - 1];
      }
      assert queue[..i] == queue;
      redrawFifoLast := 0;
    }

    method UpdateRectDelayed(r: Rect)
      requires Valid()
      modifies this`log, this`redrawFifoLast, redrawFifo
      ensures Valid() && View() == Request(surface, old(View()), r)
    {
      if redrawFifoLast >= REDRAW_FIFO_LEN {
        UpdateRectFlush();
      }
      redrawFifo[redrawFifoLast] := r;
      redrawFifoLast := redrawFifoLast + 1;
      log := log + [Requested(r)];
    }

    // ----- 2D engine -----

    method CopyRectCommand(x0: int, y0: int, dst: Rect) returns (ok: bool)
      requires Valid()
      modifies this`log, this`redrawFifoLast, redrawFifo, vram
      ensures Valid() && View() == Apply(surface, old(View()), Copy(x0, y0, dst))
      ensures ok == (VerifyRect(surface, Source(x0, y0, dst)) && VerifyRect(surface, dst))
    {
      hide Copied, VerifyRect, Request;
      ok := CopyRect(vram, surface, x0, y0, dst);
      if ok {
        log := log + [Wrote(dst)];
        UpdateRectDelayed(dst);
      }
    }

    method FillRectCommand(colour: Uint32, r: Rect) returns (ok: bool)
      requires Valid()
      modifies this`log, this`redrawFifoLast, redrawFifo, vram
      ensures Valid() && View() == Apply(surface, old(View()), Fill(colour, r))
      ensures ok == VerifyRect(surface, r)
    {
      hide Filled, VerifyRect, Request;
      ok := FillRect(vram, surface, colour, r);
      if ok {
        log := log + [Wrote(r)];
        UpdateRectDelayed(r);
      }
    }

    // ----- command FIFO -----

    /** The run has read `k` words from `start`; the FIFO is `g` except for the STOP register, which follows `fifoStop`. */
    ghost predicate Reading(g: Ring, start: nat, k: nat)
      reads this`fifoMin, this`fifoMax, this`fifoStop, fifo
    {
      && g.Valid() && g.Position(start) && fifo.Length == FIFO_WORDS
      && fifoMin == g.min && fifoMax == g.max && fifoStop == g.Skip(start, k)
      && fifo[..] == g.words[FIFO_STOP := fifoStop]
    }

    /** The outcome of one command that began at `start` on display `d` with `len` words available and `before` read. */
    ghost predicate Executed(g: Ring, start: nat, len: nat, len': int, d: Display, before: int)
      requires g.Valid() && g.Position(start) && 0 < len && surface.Fits(|d.vram|)
      reads this`fifoMin, this`fifoMax, this`fifoStop, fifo
      reads this`redrawFifoLast, this`surface, this`invalidated, this`log, this`wordsRead, vram, redrawFifo
    {
      Valid() &&
      var p := g.Window(start, len);
      wordsRead == before + WordsRead(p) &&
      match Decode(p)
      case Rewind => len' < 0 && Reading(g, start, 0) && View() == d
      case Take(words, charge) =>
        len' == len - charge && Reading(g, start, words) && View() == Apply(surface, d, EffectOf(p))
    }

    /** `vmsvga_fifo_read_raw`; the index it reads is always inside the FIFO. */
    method FifoRead(ghost g: Ring, ghost start: nat, ghost k: nat) returns (word: Uint32)
      requires Reading(g, start, k)
      modifies this`fifoStop, this`wordsRead, fifo
      ensures Reading(g, start, k + 1) && word == g.WordAt(g.Skip(start, k)) && wordsRead == old(wordsRead) + 1
    {
      wordsRead := wordsRead + 1;
      word := fifo[fifoStop / 4];
      fifoStop := fifoStop + 4;
      if fifoStop >= fifoMax {
        fifoStop := fifoMin;
      }
      fifo[FIFO_STOP] := fifoStop;
    }

    /** `vmsvga_fifo_read` of a word known to be available. */
    method ReadOperand(ghost g: Ring, ghost start: nat, ghost k: nat, ghost len: nat) returns (word: Uint32)
      requires Reading(g, start, k) && k < len
      modifies this`fifoStop, this`wordsRead, fifo
      ensures Reading(g, start, k + 1) && word == g.Window(start, len)[k] && wordsRead == old(wordsRead) + 1
    {
      hide Ring.Skip, Ring.WordAt, Ring.Next;
      word := FifoRead(g, start, k);
    }

    /** Four words as a rectangle of ints. */
    method ReadRect(ghost g: Ring, ghost start: nat, ghost k: nat, ghost len: nat) returns (r: Rect)
      requires Reading(g, start, k) && k + 4 <= len
      modifies this`fifoStop, this`wordsRead, fifo
      ensures Reading(g, start, k + 4) && r == RectAt(g.Window(start, len), k) && wordsRead == old(wordsRead) + 4
    {
      hide Ring.Skip, Ring.Window, Reading, Signed32;
      var x := ReadOperand(g, start, k, len);
      var y := ReadOperand(g, start, k + 1, len);
      var w := ReadOperand(g, start, k + 2, len);
      var h := ReadOperand(g, start, k + 3, len);
      r := Rect(Signed32(x), Signed32(y), Signed32(w), Signed32(h));
    }

    method Rewind(start: nat, ghost g: Ring, ghost k: nat)
      requires Reading(g, start, k)
      modifies this`fifoStop, fifo
      ensures Reading(g, start, 0)
    {
      fifoStop := start;
      fifo[FIFO_STOP] := fifoStop;
    }

    /** The label `badcmd`: charge the arguments and read past them, or rewind. */
    method BadCommand(len: int, args: Int32, start: nat, ghost g: Ring, ghost k: nat) returns (len': int)
      requires Reading(g, start, k) && 0 <= len < TWO_31
      modifies this`fifoStop, this`wordsRead, fifo
      ensures var left := len - args;
        if 0 <= left < TWO_31
        then len' == left && Reading(g, start, k + Wrap32(args)) && wordsRead == old(wordsRead) + Wrap32(args)
        else len' < 0 && Reading(g, start, 0) && wordsRead == old(wordsRead)
    {
      len' := Signed32(len - args as int);
      if len' < 0 {
        Rewind(start, g, k);
        return;
      }
      var a := args;
      while a != 0
        invariant Wrap32(a) <= Wrap32(args) && Reading(g, start, k + Wrap32(args) - Wrap32(a))
        invariant wordsRead == old(wordsRead) + Wrap32(args) - Wrap32(a)
        decreases Wrap32(a)
      {
        a := Signed32(a as int - 1);
        var _ := FifoRead(g, start, k + Wrap32(args) - Wrap32(a) - 1);
      }
    }
  
    // One method for each group of cases of the switch. `cmd`, the word at `start`, has been read.

    method ExecuteUpdate(len: int, start: nat, ghost g: Ring) returns (len': int)
      requires Valid() && Reading(g, start, 1) && 0 < len < TWO_31
      requires g.Window(start, len)[0] in {CMD_UPDATE, CMD_UPDATE_VERBOSE}
      modifies this`fifoStop, this`wordsRead, fifo, this`log, this`redrawFifoLast, redrawFifo
      ensures Executed(g, start, len, len', old(View()), old(wordsRead) - 1)
    {
      hide Ring.Skip, Ring.Window, Request, CursorArgs;
      len' := len - 5;
      if len' < 0 {
        Rewind(start, g, 1);
        return;
      }
      var r := ReadRect(g, start, 1, len);
      UpdateRectDelayed(r);
    }

    method ExecuteFill(len: int, start: nat, ghost g: Ring) returns (len': int)
      requires Valid() && Reading(g, start, 1) && 0 < len < TWO_31
      requires g.Window(start, len)[0] == CMD_RECT_FILL
      modifies this`fifoStop, this`wordsRead, fifo, this`log, this`redrawFifoLast, redrawFifo, vram
      ensures Executed(g, start, len, len', old(View()), old(wordsRead) - 1)
    {
      hide Ring.Skip, Ring.Window, Apply, CursorArgs;
      len' := len - 6;
      if len' < 0 {
        Rewind(start, g, 1);
        return;
      }
      var colour := ReadOperand(g, start, 1, len);
      var r := ReadRect(g, start, 2, len);
      var ok := FillRectCommand(colour, r);
      if !ok {
        len' := BadCommand(len', 0, start, g, 6);
      }
    }

    method ExecuteCopy(len: int, start: nat, ghost g: Ring) returns (len': int)
      requires Valid() && Reading(g, start, 1) && 0 < len < TWO_31
      requires g.Window(start, len)[0] == CMD_RECT_COPY
      modifies this`fifoStop, this`wordsRead, fifo, this`log, this`redrawFifoLast, redrawFifo, vram
      ensures Executed(g, start, len, len', old(View()), old(wordsRead) - 1)
    {
      hide Ring.Skip, Ring.Window, Apply, CursorArgs;
      len' := len - 7;
      if len' < 0 {
        Rewind(start, g, 1);
        return;
      }
      var x := ReadOperand(g, start, 1, len);
      var y := ReadOperand(g, start, 2, len);
      var dst := ReadRect(g, start, 3, len);
      var ok := CopyRectCommand(Signed32(x), Signed32(y), dst);
      if !ok {
        len' := BadCommand(len', 0, start, g, 7);
      }
    }

    /** `count` raw words into a buffer of the cursor structure. */
    method ReadWords(buffer: array<Uint32>, count: nat, ghost g: Ring, ghost start: nat, ghost k: nat, ghost len: nat)
      requires Reading(g, start, k) && k + count <= len && count <= buffer.Length && buffer != fifo
      modifies this`fifoStop, this`wordsRead, fifo, buffer
      ensures Reading(g, start, k + count) && buffer[..count] == g.Window(start, len)[k..k + count]
      ensures wordsRead == old(wordsRead) + count
    {
      hide Ring.Skip, Ring.Window;
      var i := 0;
      while i < count
        invariant 0 <= i <= count && Reading(g, start, k + i) && wordsRead == old(wordsRead) + i
        invariant buffer[..i] == g.Window(start, len)[k..k + i]
      {
        buffer[i] := ReadOperand(g, start, k + i, len);
        i := i + 1;
      }
    }

    method ReadCursorHeader(ghost g: Ring, ghost start: nat, ghost len: nat)
      returns (id: Uint32, hotX: Uint32, hotY: Uint32, width: Uint32, height: Uint32, bpp: Uint32)
      requires Reading(g, start, 1) && 8 <= len
      modifies this`fifoStop, this`wordsRead, fifo
      ensures Reading(g, start, 8) && wordsRead == old(wordsRead) + 7
      ensures var p := g.Window(start, len);
        id == p[1] && hotX == p[2] && hotY == p[3] && width == p[4] && height == p[5] && bpp == p[7]
    {
      hide Ring.Skip, Ring.Window, Reading;
      id := ReadOperand(g, start, 1, len);
      hotX := ReadOperand(g, start, 2, len);
      hotY := ReadOperand(g, start, 3, len);
      width := ReadOperand(g, start, 4, len);
      height := ReadOperand(g, start, 5, len);
      var _ := ReadOperand(g, start, 6, len);
      bpp := ReadOperand(g, start, 7, len);
    }

    method ExecuteCursor(len: int, start: nat, ghost g: Ring) returns (len': int)
      requires Valid() && Reading(g, start, 1) && 0 < len < TWO_31
      requires g.Window(start, len)[0] == CMD_DEFINE_CURSOR
      modifies this`fifoStop, this`wordsRead, fifo, this`log
      ensures Executed(g, start, len, len', old(View()), old(wordsRead) - 1)
    {
      hide Ring.Skip, Ring.Window, CursorArgs, BitmapSize, PixmapSize, Signed32;
      ghost var p := g.Window(start, len);
      len' := len - 8;
      if len' < 0 {
        Rewind(start, g, 1);
        return;
      }
      var id, hotX, hotY, width, height, bpp := ReadCursorHeader(g, start, len);
      var x, y := Signed32(width), Signed32(height);
      var args := CursorArgs(x, y, bpp);
      if width > 256 || height > 256 || bpp > 32
         || BitmapSize(x, y) < 0 || BitmapSize(x, y) > CURSOR_MASK_WORDS || PixmapSize(x, y, bpp) > CURSOR_IMAGE_WORDS
      {
        len' := BadCommand(len', args, start, g, 8);
        return;
      }
      AcceptedCursor(width, height, bpp);
      len' := len' - args;
      if len' < 0 {
        Rewind(start, g, 8);
        return;
      }
      DefineCursor(Signed32(id), Signed32(hotX), Signed32(hotY), width, height, bpp, g, start, len);
    }

    /** The accepted cursor: its mask and image words are read and handed on. */
    method DefineCursor(id: Int32, hotX: Int32, hotY: Int32, width: Uint32, height: Uint32, bpp: Uint32,
                        ghost g: Ring, ghost start: nat, ghost len: nat)
      requires Valid() && Reading(g, start, 8) && 8 <= len && CursorAccepted(width, height, bpp)
      requires 8 + CursorArgs(Signed32(width), Signed32(height), bpp) <= len
      requires var p := g.Window(start, len);
        p[4] == width && p[5] == height && p[7] == bpp
        && id == Signed32(p[1]) && hotX == Signed32(p[2]) && hotY == Signed32(p[3])
      modifies this`fifoStop, this`wordsRead, fifo, this`log
      ensures Valid() && Reading(g, start, 8 + CursorArgs(Signed32(width), Signed32(height), bpp))
      ensures log == old(log) + [CursorDefined(CursorOf(g.Window(start, len)))]
      ensures wordsRead == old(wordsRead) + CursorArgs(Signed32(width), Signed32(height), bpp)
    {
      hide Ring.Skip, Ring.Window, CursorArgs, BitmapSize, PixmapSize, Signed32;
      AcceptedCursor(width, height, bpp);
      var maskWords, imageWords := BitmapSize(Signed32(width), Signed32(height)), PixmapSize(Signed32(width), Signed32(height), bpp);
      var mask, image := new Uint32[CURSOR_MASK_WORDS], new Uint32[CURSOR_IMAGE_WORDS];
      ReadWords(mask, maskWords, g, start, 8, len);
      ReadWords(image, imageWords, g, start, 8 + maskWords, len);
      log := log + [CursorDefined(CursorDefinition(id, hotX, hotY, width, height, bpp, mask[..maskWords], image[..imageWords]))];
    }

    method ExecuteAlphaCursor(len: int, start: nat, ghost g: Ring) returns (len': int)
      requires Valid() && Reading(g, start, 1) && 0 < len < TWO_31
      requires g.Window(start, len)[0] == CMD_DEFINE_ALPHA_CURSOR
      modifies this`fifoStop, this`wordsRead, fifo
      ensures Executed(g, start, len, len', old(View()), old(wordsRead) - 1)
    {
      hide Ring.Skip, Ring.Window, CursorArgs, Signed32, Decode, WordsRead, Args, EffectOf;
      len' := len - 6;
      if len' < 0 {
        CutOffHeader(g.Window(start, len));
        Rewind(start, g, 1);
        return;
      }
      var _ := ReadOperand(g, start, 1, len);
      var _ := ReadOperand(g, start, 2, len);
      var _ := ReadOperand(g, start, 3, len);
      var x := ReadOperand(g, start, 4, len);
      var y := ReadOperand(g, start, 5, len);
      AlphaCursorVerdict(g.Window(start, len));
      len' := BadCommand(len', Signed32(Signed32(x) as int * Signed32(y) as int), start, g, 6);
    }

    method ExecuteGlyphClipped(len: int, start: nat, ghost g: Ring) returns (len': int)
      requires Valid() && Reading(g, start, 1) && 0 < len < TWO_31
      requires g.Window(start, len)[0] == CMD_DRAW_GLYPH_CLIPPED
      modifies this`fifoStop, this`wordsRead, fifo
      ensures Executed(g, start, len, len', old(View()), old(wordsRead) - 1)
    {
      hide Ring.Skip, Ring.Window, CursorArgs;
      len' := len - 4;
      if len' < 0 {
        Rewind(start, g, 1);
        return;
      }
      var _ := ReadOperand(g, start, 1, len);
      var _ := ReadOperand(g, start, 2, len);
      var size := ReadOperand(g, start, 3, len);
      len' := BadCommand(len', 7 + size / 4, start, g, 4);
    }

    /** The cases that do not charge their command word: raster operations, alpha blend, nops, unknown commands. */
    method ExecuteUncharged(len: int, cmd: Uint32, start: nat, ghost g: Ring) returns (len': int)
      requires Valid() && Reading(g, start, 1) && 0 < len < TWO_31
      requires g.Window(start, len)[0] == cmd && HeaderWords(cmd) == 0
      modifies this`fifoStop, this`wordsRead, fifo
      ensures Executed(g, start, len, len', old(View()), old(wordsRead) - 1)
    {
      hide Ring.Skip, Ring.Window, CursorArgs;
      match cmd {
        case 13 => len' := BadCommand(len, 6, start, g, 1);   // CMD_RECT_ROP_FILL
        case 14 => len' := BadCommand(len, 7, start, g, 1);   // CMD_RECT_ROP_COPY
        case 28 => len' := BadCommand(len, 12, start, g, 1);  // CMD_SURFACE_ALPHA_BLEND
        case 26 => len' := len;                               // CMD_SURFACE_FILL
        case 27 => len' := len;                               // CMD_SURFACE_COPY
        case 29 => len' := len;                               // CMD_FRONT_ROP_FILL
        case 30 => len' := len;                               // CMD_FENCE
        case 0 => len' := len;                                // CMD_INVALID
        case _ => len' := BadCommand(len, 0, start, g, 1);
      }
    }

    method ExecuteCommand(len: int, ghost g: Ring, ghost at: nat) returns (len': int)
      requires Valid() && Reading(g, at, 0) && 0 < len < TWO_31
      modifies this`fifoStop, this`wordsRead, fifo, this`log, this`redrawFifoLast, redrawFifo, vram
      ensures Executed(g, at, len, len', old(View()), old(wordsRead))
    {
      hide Executed, Ring.Skip, Ring.Window;
      SkipNothing(g, at);
      var start := fifoStop;
      var cmd := ReadOperand(g, start, 0, len);
      if cmd == CMD_UPDATE || cmd == CMD_UPDATE_VERBOSE {
        len' := ExecuteUpdate(len, start, g);
      } else if cmd == CMD_RECT_FILL {
        len' := ExecuteFill(len, start, g);
      } else if cmd == CMD_RECT_COPY {
        len' := ExecuteCopy(len, start, g);
      } else if cmd == CMD_DEFINE_CURSOR {
        len' := ExecuteCursor(len, start, g);
      } else if cmd == CMD_DEFINE_ALPHA_CURSOR {
        len' := ExecuteAlphaCursor(len, start, g);
      } else if cmd == CMD_DRAW_GLYPH_CLIPPED {
        len' := ExecuteGlyphClipped(len, start, g);
      } else {
        len' := ExecuteUncharged(len, cmd, start, g);
      }
    }

    /** `vmsvga_fifo_length`: the registers are read afresh for every run. */
    method FifoLength() returns (num: int)
      requires Valid()
      modifies this`fifoMin, this`fifoMax, this`fifoNext, this`fifoStop
      ensures num == (if enable && config then Length(fifo[..]) else 0) < TWO_31
      ensures num != 0 ==> Reading(RingOf(fifo[..]), fifoStop, 0) && fifoStop == fifo[FIFO_STOP]
    {
      if !config || !enable {
        return 0;
      }
      fifoMin := fifo[FIFO_MIN];
      fifoMax := fifo[FIFO_MAX];
      fifoNext := fifo[FIFO_NEXT];
      fifoStop := fifo[FIFO_STOP];
      if fifoMin % 4 != 0 || fifoMax % 4 != 0 || fifoNext % 4 != 0 || fifoStop % 4 != 0 {
        return 0;
      }
      if fifoMin < 16 {
        return 0;
      }
      if fifoMax > FIFO_SIZE || fifoMin >= FIFO_SIZE || fifoStop >= FIFO_SIZE || fifoNext >= FIFO_SIZE {
        return 0;
      }
      if fifoMax < fifoMin + 10 * 1024 {
        return 0;
      }
      num := fifoNext - fifoStop;
      if num < 0 {
        num := num + (fifoMax - fifoMin);
      }
      num := num / 4;
    }

    /** One turn of the loop; `c` and `c'` are the control states of the specification before and after it. */
    method LoopBody(len: int, ghost g: Ring, ghost c: Control, ghost loops: nat, ghost d: Display)
      returns (len': int, ghost c': Control)
      requires Valid() && 0 < len == c.len < TWO_31 && g.Valid() && g.Position(c.stop) && Reading(g, c.stop, 0)
      requires surface.Fits(|d.vram|) && View() == ApplyAll(surface, d, c.effects)
      modifies this`fifoStop, this`wordsRead, fifo, this`log, this`redrawFifoLast, redrawFifo, vram
      ensures Valid() && g.Position(c'.stop) && Reading(g, c'.stop, 0) && len' < TWO_31
      ensures View() == ApplyAll(surface, d, c'.effects)
      ensures Iterate(g, c', loops) == Iterate(g, c, loops + 1)
      ensures len' == c'.len || (len' < 0 && Iterate(g, c', loops) == c')
      ensures wordsRead + (if len' == c'.len then Reads(g, c', loops) else 0) == old(wordsRead) + Reads(g, c, loops + 1)
    {
      hide Ring.Skip, Ring.Window, Decode, Command, EffectOf, Apply, ApplyAll, Iterate, Reads, WordsRead, View;
      len' := ExecuteCommand(len, g, c.stop);
      CommandOutcome(g, c, loops);
      if Decode(g.Window(c.stop, c.len)).Take? {
        c' := Command(g, c);
        ApplyNext(surface, d, c.effects, EffectOf(g.Window(c.stop, c.len)));
      } else {
        c' := c;
      }
    }

    method FifoRunNow()
      requires Valid()
      modifies this`fifoMin, this`fifoMax, this`fifoNext, this`fifoStop, this`syncing, this`wordsRead
      modifies fifo, this`log, this`redrawFifoLast, redrawFifo, vram
      ensures Valid() && Contents() == FifoRun(old(Contents())) && !syncing
      ensures wordsRead == old(wordsRead) + if enable && config then RunReads(old(fifo[..])) else 0
    {
      hide Ring.Skip, Ring.Window, Ring.Next, Iterate, Reads, Apply, ApplyAll, Length;
      NothingApplied(surface, View());
      var len := FifoLength();
      if len > 0 {
        ghost var g, c, d := RingOf(fifo[..]), Start(fifo[..]), View();
        var loops := MAX_LOOP;
        while len > 0 && loops > 0
          invariant Valid() && 0 <= loops && len < TWO_31
          invariant g.Position(c.stop) && Reading(g, c.stop, 0)
          invariant View() == ApplyAll(surface, d, c.effects)
          invariant Iterate(g, c, loops) == Run(g.words)
          invariant len == c.len || (len < 0 && Iterate(g, c, loops) == c)
          invariant wordsRead + (if len == c.len then Reads(g, c, loops) else 0) == old(wordsRead) + RunReads(g.words)
          decreases loops
        {
          loops := loops - 1;
          len, c := LoopBody(len, g, c, loops, d);
        }
        if len == c.len {
          NoMoreCommands(g, c, loops);
        }
        SkipNothing(g, c.stop);
      }
      syncing := false;
    }

    // ----- console callbacks, register writes, reset -----

    /** `vmsvga_check_size`. */
    method CheckSizeNow()
      requires Shaped()
      modifies this`surface, this`invalidated
      ensures Shaped() && Contents() == CheckSize(old(Contents()))
    {
      if newWidth != surface.width || newHeight != surface.height || NEW_DEPTH != 8 * surface.bypp {
        surface := Surface(newWidth, newHeight, NEW_DEPTH / 8, NEW_DEPTH * newWidth / 8);
        invalidated := true;
      }
    }

    /** `vmsvga_update_display`; in standard VGA mode the VGA core takes over and this device does nothing. */
    method UpdateDisplayNow()
      requires Valid() && Legal(Contents(), UpdateDisplay)
      modifies this, fifo, redrawFifo, vram
      ensures Valid() && Contents() == Step(old(Contents()), UpdateDisplay)
    {
      hide FifoRun, Flush;
      if !enable || !config {
        return;
      }
      CheckSizeNow();
      FifoRunNow();
      UpdateRectFlush();
      if invalidated {
        invalidated := false;
        log := log + [ShownAll];
      }
    }

    method InvalidateDisplayNow()
      requires Valid()
      modifies this`invalidated
      ensures Valid() && Contents() == Step(old(Contents()), InvalidateDisplay)
    {
      if !enable {
        return;
      }
      invalidated := true;
    }

    /** The cases of `vmsvga_value_write` that touch the state of this model. */
    method ValueWrite(op: Operation)
      requires Valid()
      requires op.WriteEnable? || op.WriteWidth? || op.WriteHeight? || op.WriteBitsPerPixel? || op.WriteConfigDone? || op.WriteSync?
      modifies this, fifo, redrawFifo, vram
      ensures Valid() && Contents() == Step(old(Contents()), op)
    {
      hide FifoRun;
      match op {
        case WriteEnable(value) =>
          enable := value != 0;
          invalidated := true;
        case WriteWidth(value) =>
          if value <= MAX_WIDTH {
            newWidth := value;
            invalidated := true;
          }
        case WriteHeight(value) =>
          if value <= MAX_HEIGHT {
            newHeight := value;
            invalidated := true;
          }
        case WriteBitsPerPixel(value) =>
          if value != 32 {
            config := false;
            invalidated := true;
          }
        case WriteConfigDone(value) =>
          config := value != 0;
        case WriteSync =>
          syncing := true;
          FifoRunNow();
      }
    }

    method ResetNow()
      requires Valid()
      modifies this`enable, this`config, this`redrawFifoLast, this`syncing
      ensures Valid() && Contents() == Step(old(Contents()), Reset)
    {
      enable := false;
      config := false;
      redrawFifoLast := 0;
      syncing := false;
    }
  }

  lemma NoMoreCommands(g: Ring, c: Control, loops: nat)
    requires g.Valid() && g.Position(c.stop) && (c.len <= 0 || loops == 0)
    ensures Iterate(g, c, loops) == c && Reads(g, c, loops) == 0
  {
  }

  lemma NothingApplied(s: Surface, d: Display)
    requires s.Fits(|d.vram|)
    ensures ApplyAll(s, d, []) == d
  {
  }

  lemma ApplyNext(s: Surface, d: Display, effects: seq<Effect>, e: Effect)
    requires s.Fits(|d.vram|)
    ensures ApplyAll(s, d, effects + [e]) == Apply(s, ApplyAll(s, d, effects), e)
  {
    hide Apply;
    assert (effects + [e])[..|effects|] == effects;
  }

  lemma CommandOutcome(g: Ring, c: Control, loops: nat)
    requires g.Valid() && g.Position(c.stop) && c.len > 0
    ensures var p := g.Window(c.stop, c.len);
      Reads(g, c, loops + 1) == WordsRead(p) + if Decode(p).Rewind? then 0 else Reads(g, Command(g, c), loops)
    ensures var p := g.Window(c.stop, c.len);
      match Decode(p)
      case Rewind => Iterate(g, c, loops) == c == Iterate(g, c, loops + 1)
      case Take(words, charge) =>
        && Iterate(g, c, loops + 1) == Iterate(g, Command(g, c), loops)
        && Command(g, c).stop == g.Skip(c.stop, words)
        && g.Skip(Command(g, c).stop, 0) == Command(g, c).stop
        && Command(g, c).len == c.len - charge < TWO_31
        && Command(g, c).effects == c.effects + [EffectOf(p)]
  {
    hide EffectOf, Ring.Window, Args, WordsRead;
  }

  lemma CutOffHeader(p: seq<Uint32>)
    requires 0 < |p| < HeaderWords(p[0])
    ensures Decode(p).Rewind? && WordsRead(p) == 1
  {
  }

  lemma AlphaCursorVerdict(p: seq<Uint32>)
    requires 6 <= |p| < TWO_31 && p[0] == CMD_DEFINE_ALPHA_CURSOR
    ensures var args := Signed32(Signed32(p[4]) as int * Signed32(p[5]) as int);
      if 0 <= |p| - 6 - args < TWO_31
      then Decode(p) == Take(6 + Wrap32(args), 6 + args) && WordsRead(p) == 6 + Wrap32(args) && EffectOf(p) == Nothing
      else Decode(p).Rewind? && WordsRead(p) == 6
  {
    hide Signed32, Wrap32, CursorArgs;
  }
}
