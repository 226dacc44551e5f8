/** Decoding the guest's command FIFO (hw/display/vmware_vga.c). */
module Fifo {
  import opened Words
  import opened Surfaces
  import opened Damage

  const FIFO_SIZE := 0x10000  // bytes
  const FIFO_WORDS := 0x4000

  // indices of the four FIFO registers
  const FIFO_MIN := 0
  const FIFO_MAX := 1
  const FIFO_NEXT := 2
  const FIFO_STOP := 3

  const CMD_INVALID := 0
  const CMD_UPDATE := 1
  const CMD_RECT_FILL := 2
  const CMD_RECT_COPY := 3
  const CMD_RECT_ROP_FILL := 13
  const CMD_RECT_ROP_COPY := 14
  const CMD_DEFINE_CURSOR := 19
  const CMD_DEFINE_ALPHA_CURSOR := 22
  const CMD_DRAW_GLYPH_CLIPPED := 24
  const CMD_UPDATE_VERBOSE := 25
  const CMD_SURFACE_FILL := 26
  const CMD_SURFACE_COPY := 27
  const CMD_SURFACE_ALPHA_BLEND := 28
  const CMD_FRONT_ROP_FILL := 29
  const CMD_FENCE := 30

  const CURSOR_MASK_WORDS := 1024
  const CURSOR_IMAGE_WORDS := 4096

  /** A run executes at most this many commands. */
  const MAX_LOOP := 1023

  // ----- decoding a linear stream of words -----

  /** Words charged against the available length before the operands are read; none for the last group of commands. */
  function HeaderWords(code: Uint32): nat {
    if code == CMD_UPDATE || code == CMD_UPDATE_VERBOSE then 5
    else if code == CMD_RECT_FILL then 6
    else if code == CMD_RECT_COPY then 7
    else if code == CMD_DEFINE_CURSOR then 8
    else if code == CMD_DEFINE_ALPHA_CURSOR then 6
    else if code == CMD_DRAW_GLYPH_CLIPPED then 4
    else 0
  }

  function BitmapSize(x: Int32, y: Int32): Int32 {
    Signed32((Signed32(x as int + 31) / 32) * y as int)
  }

  function PixmapSize(x: Int32, y: Int32, bpp: Uint32): Uint32 {
    Wrap32((Wrap32(x as int * bpp as int + 31) / 32) * y as int)
  }

  function CursorArgs(x: Int32, y: Int32, bpp: Uint32): Int32 {
    Signed32(BitmapSize(x, y) as int + PixmapSize(x, y, bpp) as int)
  }

  predicate CursorAccepted(width: Uint32, height: Uint32, bpp: Uint32) {
    && width <= 256 && height <= 256 && bpp <= 32
    && 0 <= BitmapSize(Signed32(width), Signed32(height)) <= CURSOR_MASK_WORDS
    && PixmapSize(Signed32(width), Signed32(height), bpp) <= CURSOR_IMAGE_WORDS
  }

  /** Words that follow the header, computed in 32-bit arithmetic from the header's operands. */
  function Args(p: seq<Uint32>): (args: Int32)
    requires 0 < |p| && HeaderWords(p[0]) <= |p|
  {
    if p[0] == CMD_DEFINE_CURSOR then CursorArgs(Signed32(p[4]), Signed32(p[5]), p[7])
    else if p[0] == CMD_DEFINE_ALPHA_CURSOR then Signed32(Signed32(p[4]) as int * Signed32(p[5]) as int)
    else if p[0] == CMD_DRAW_GLYPH_CLIPPED then 7 + p[3] / 4
    else if p[0] == CMD_RECT_ROP_FILL then 6
    else if p[0] == CMD_RECT_ROP_COPY then 7
    else if p[0] == CMD_SURFACE_ALPHA_BLEND then 12
    else 0
  }

  // ----- what the sizes count -----

  /** Whole words that a row of `bits` bits needs: the last one may be filled only in part. */
  function RowWords(bits: nat): (k: nat)
    ensures 32 * k - 32 < bits <= 32 * k
  {
    (bits + 31) / 32
  }

  function MaskWords(width: nat, height: nat): nat {
    RowWords(width) * height
  }

  function ImageWords(width: nat, height: nat, bpp: nat): nat {
    RowWords(width * bpp) * height
  }

  /** The mask has one bit per pixel and rows of whole words, up to what 32-bit arithmetic cuts off. */
  lemma BitmapRows(x: Int32, y: Int32, k: int)
    requires x <= 0x7fff_ffff - 31 && 32 * k - 32 < x <= 32 * k
    ensures BitmapSize(x, y) == Signed32(k * y)
  {
    hide Signed32;
    assert (x as int + 31) / 32 == k;
  }

  /** The image has `bpp` bits per pixel. */
  lemma PixmapRows(x: Int32, y: Int32, bpp: Uint32, k: int)
    requires 0 <= x as int * bpp as int <= 0xffff_ffff - 31 && 32 * k - 32 < x as int * bpp as int <= 32 * k
    ensures PixmapSize(x, y, bpp) == Wrap32(k * y)
  {
    hide Wrap32;
    assert (x as int * bpp as int + 31) / 32 == k;
  }

  lemma Product(a: nat, b: nat, m: nat, n: nat)
    requires a <= m && b <= n
    ensures 0 <= a * b <= m * n
  {
    assert a * b <= a * n <= m * n;
  }

  /** Within the limits of the device nothing is cut off: the words are those of the rows. */
  lemma CursorRows(width: nat, height: nat, bpp: nat)
    requires width <= 256 && height <= 256 && bpp <= 32
    ensures BitmapSize(width, height) == MaskWords(width, height)
    ensures PixmapSize(width, height, bpp) == ImageWords(width, height, bpp)
  {
    hide BitmapSize, PixmapSize, Signed32, Wrap32;
    Product(width, bpp, 256, 32);
    Product(RowWords(width), height, 8, 256);
    Product(RowWords(width * bpp), height, 256, 256);
    BitmapRows(width, height, RowWords(width));
    PixmapRows(width, height, bpp, RowWords(width * bpp));
  }

  lemma SmallSigned(u: nat)
    requires u <= 256
    ensures Signed32(u) == u
  {
  }

  /** A cursor is accepted exactly if it is within the limits and the rows of its mask and image fit the two buffers. */
  lemma AcceptedExactly(width: Uint32, height: Uint32, bpp: Uint32)
    ensures CursorAccepted(width, height, bpp) <==>
      && width <= 256 && height <= 256 && bpp <= 32
      && MaskWords(width, height) <= 1024 && ImageWords(width, height, bpp) <= 4096
    ensures CursorAccepted(width, height, bpp) ==>
      CursorArgs(Signed32(width), Signed32(height), bpp) == MaskWords(width, height) + ImageWords(width, height, bpp)
  {
    hide BitmapSize, PixmapSize, Signed32, MaskWords, ImageWords;
    if width <= 256 && height <= 256 && bpp <= 32 {
      SmallSigned(width);
      SmallSigned(height);
      CursorRows(width, height, bpp);
    }
  }

  /** An accepted cursor carries exactly its mask and its image, within the two buffers. */
  lemma AcceptedCursor(width: Uint32, height: Uint32, bpp: Uint32)
    requires CursorAccepted(width, height, bpp)
    ensures var x, y := Signed32(width), Signed32(height);
      CursorArgs(x, y, bpp) == BitmapSize(x, y) + PixmapSize(x, y, bpp) <= CURSOR_MASK_WORDS + CURSOR_IMAGE_WORDS
  {
  }

  function CursorOf(p: seq<Uint32>): CursorDefinition
    requires 8 <= |p| && CursorAccepted(p[4], p[5], p[7])
    requires 8 + CursorArgs(Signed32(p[4]), Signed32(p[5]), p[7]) <= |p|
  {
    AcceptedCursor(p[4], p[5], p[7]);
    var mask := BitmapSize(Signed32(p[4]), Signed32(p[5]));
    var image := PixmapSize(Signed32(p[4]), Signed32(p[5]), p[7]);
    CursorDefinition(Signed32(p[1]), Signed32(p[2]), Signed32(p[3]), p[4], p[5], p[7],
                     p[8..8 + mask], p[8 + mask..8 + mask + image])
  }

  function RectAt(p: seq<Uint32>, k: nat): Rect
    requires k + 4 <= |p|
  {
    Rect(Signed32(p[k]), Signed32(p[k + 1]), Signed32(p[k + 2]), Signed32(p[k + 3]))
  }

  /**
   * `Take` consumes `words` words of the FIFO and charges `charge` of them against the available length.
   * `Rewind` puts STOP back to the start of the command and ends the run.
   */
  datatype Verdict = Rewind | Take(words: nat, charge: int)

  /** The command at the start of the available words `p`. */
  function Decode(p: seq<Uint32>): (v: Verdict)
    requires 0 < |p|
    ensures v.Take? ==> HeaderWords(p[0]) <= |p| && v.charge == HeaderWords(p[0]) + Args(p) <= |p|
  {
    var header := HeaderWords(p[0]);
    if |p| < header then Rewind
    else
      var args := Args(p);
      var left := |p| - header - args;
      if left < 0 || left >= TWO_31 then Rewind
      else Take((if header == 0 then 1 else header) + Wrap32(args), header + args)
  }

  /** A command is put back exactly if its header is cut off or the length left, as a 32-bit integer, is negative. */
  lemma RewindsExactly(p: seq<Uint32>)
    requires 0 < |p| < TWO_31
    ensures Decode(p).Rewind? <==> |p| < HeaderWords(p[0]) || Signed32(|p| - HeaderWords(p[0]) - Args(p) as int) < 0
  {
    hide HeaderWords, Args;
  }

  /** The words that one turn of the loop reads: all of a command it takes, or what it had read when it rewound. */
  function WordsRead(p: seq<Uint32>): (n: nat)
    requires 0 < |p|
    ensures n > 0
  {
    match Decode(p)
    case Take(words, _) => words
    case Rewind => if |p| < HeaderWords(p[0]) || HeaderWords(p[0]) == 0 then 1 else HeaderWords(p[0])
  }

  function EffectOf(p: seq<Uint32>): Effect
    requires 0 < |p| && HeaderWords(p[0]) <= |p| && HeaderWords(p[0]) + Args(p) <= |p|
  {
    if p[0] == CMD_UPDATE || p[0] == CMD_UPDATE_VERBOSE then Update(RectAt(p, 1))
    else if p[0] == CMD_RECT_FILL then Fill(p[1], RectAt(p, 2))
    else if p[0] == CMD_RECT_COPY then Copy(Signed32(p[1]), Signed32(p[2]), RectAt(p, 3))
    else if p[0] == CMD_DEFINE_CURSOR && CursorAccepted(p[4], p[5], p[7]) then Cursor(CursorOf(p))
    else Nothing
  }

  // ----- the ring -----

  /** The FIFO memory as the run finds it, with the bounds it has read from it. */
  datatype Ring = Ring(words: seq<Uint32>, min: nat, max: nat) {
    /** What `vmsvga_fifo_length` checks of MIN and MAX. */
    predicate Valid() {
      && |words| == FIFO_WORDS
      && min % 4 == 0 && max % 4 == 0
      && 16 <= min < FIFO_SIZE && min + 10 * 1024 <= max <= FIFO_SIZE
    }

    /** What it checks of STOP and NEXT: aligned and inside the FIFO memory, but not necessarily between MIN and MAX. */
    predicate Position(stop: nat) {
      stop % 4 == 0 && stop < FIFO_SIZE
    }

    function Next(stop: nat): (stop': nat)
      requires Valid() && Position(stop)
      ensures Position(stop')
    {
      if stop + 4 >= max then min else stop + 4
    }

    function Skip(stop: nat, n: nat): (stop': nat)
      requires Valid() && Position(stop)
      ensures Position(stop')
    {
      if n == 0 then stop else Next(Skip(stop, n - 1))
    }

    /** The word a run reads at `stop`. Every read and rewind has just stored STOP itself into word 3. */
    function WordAt(stop: nat): Uint32
      requires Valid() && Position(stop)
    {
      if stop == 4 * FIFO_STOP then stop else words[stop / 4]
    }

    /** The next `len` words from `stop` on. */
    function Window(stop: nat, len: nat): (p: seq<Uint32>)
      requires Valid() && Position(stop)
      ensures |p| == len
    {
      seq(len, i requires 0 <= i => WordAt(Skip(stop, i)))
    }
  }

  lemma SkipAdds(g: Ring, stop: nat, a: nat, b: nat)
    requires g.Valid() && g.Position(stop)
    ensures g.Skip(g.Skip(stop, a), b) == g.Skip(stop, a + b)
  {
    if b > 0 {
      SkipAdds(g, stop, a, b - 1);
    }
  }

  lemma WindowTail(g: Ring, stop: nat, len: nat, n: nat)
    requires g.Valid() && g.Position(stop) && n <= len
    ensures g.Window(g.Skip(stop, n), len - n) == g.Window(stop, len)[n..]
  {
    hide Ring.Skip, Ring.Next, Ring.WordAt, Ring.Position, Ring.Valid;
    forall i | 0 <= i < len - n
      ensures g.Window(g.Skip(stop, n), len - n)[i] == g.Window(stop, len)[n..][i]
    {
      SkipAdds(g, stop, n, i);
    }
  }

  /**
   * The length `vmsvga_fifo_length` computes, in words; zero when the registers are rejected.
   * Nothing forces MIN <= STOP or NEXT < MAX, so the result may be negative or exceed the ring.
   */
  function Length(words: seq<Uint32>): int
    requires |words| == FIFO_WORDS
  {
    var min, max, next, stop := words[FIFO_MIN], words[FIFO_MAX], words[FIFO_NEXT], words[FIFO_STOP];
    if min % 4 != 0 || max % 4 != 0 || next % 4 != 0 || stop % 4 != 0 then 0
    else if min < 16 then 0
    else if max > FIFO_SIZE || min >= FIFO_SIZE || stop >= FIFO_SIZE || next >= FIFO_SIZE then 0
    else if max < min + 10 * 1024 then 0
    else (if next >= stop then next - stop else next - stop + (max - min)) / 4
  }

  /** Registers as the device wants them: aligned, inside the 64 KB of the FIFO, and at least 10 KB between MIN and MAX. */
  predicate RegistersAccepted(words: seq<Uint32>)
    requires |words| == FIFO_WORDS
  {
    var min, max, next, stop := words[0] as int, words[1] as int, words[2] as int, words[3] as int;
    && min % 4 == 0 && max % 4 == 0 && next % 4 == 0 && stop % 4 == 0
    && 16 <= min < 65536 && max <= 65536 && min + 10240 <= max && next < 65536 && stop < 65536
  }

  /** Accepted registers give the way from STOP to NEXT, round the ring if need be; others give nothing. */
  lemma LengthExactly(words: seq<Uint32>)
    requires |words| == FIFO_WORDS
    ensures !RegistersAccepted(words) ==> Length(words) == 0
    ensures RegistersAccepted(words) ==>
      var ahead := words[2] as int - words[3] as int;
      4 * Length(words) == if ahead >= 0 then ahead else ahead + (words[1] as int - words[0] as int)
  {
    if RegistersAccepted(words) {
      Fourths(words[2], words[3], words[1], words[0]);
    }
  }

  lemma Fourths(a: int, b: int, c: int, d: int)
    requires a % 4 == b % 4 == c % 4 == d % 4 == 0
    ensures 4 * ((a - b) / 4) == a - b && 4 * ((c - d) / 4) == c - d && 4 * ((a - b + (c - d)) / 4) == a - b + (c - d)
  {
  }

  // ----- a run -----

  /** Bookkeeping over a run: words taken, commands that charged no word of their own, commands with negative arguments. */
  datatype Tally = Tally(taken: nat, uncharged: nat, negative: nat)

  /** The control state of the loop in `vmsvga_fifo_run`, and the effects of the commands executed so far. */
  datatype Control = Control(stop: nat, len: int, effects: seq<Effect>, tally: Tally)

  function Tallied(t: Tally, p: seq<Uint32>, words: nat): Tally
    requires 0 < |p| && HeaderWords(p[0]) <= |p|
  {
    Tally(t.taken + words,
          t.uncharged + (if HeaderWords(p[0]) == 0 then 1 else 0),
          t.negative + (if Args(p) < 0 then 1 else 0))
  }

  /** One complete command. */
  function Command(g: Ring, c: Control): (c': Control)
    requires g.Valid() && g.Position(c.stop)
    requires c.len > 0 && Decode(g.Window(c.stop, c.len)).Take?
    ensures g.Position(c'.stop)
  {
    var p := g.Window(c.stop, c.len);
    var Take(words, charge) := Decode(p);
    Control(g.Skip(c.stop, words), c.len - charge, c.effects + [EffectOf(p)], Tallied(c.tally, p, words))
  }

  /** The loop from control state `c`, with `loops` commands still allowed. */
  function Iterate(g: Ring, c: Control, loops: nat): (c': Control)
    requires g.Valid() && g.Position(c.stop)
    ensures g.Position(c'.stop)
    decreases loops
  {
    if c.len <= 0 || loops == 0 then c
    else if Decode(g.Window(c.stop, c.len)).Rewind? then c
    else Iterate(g, Command(g, c), loops - 1)
  }

  /** How many words the loop reads, those of a command it rewinds included. */
  function Reads(g: Ring, c: Control, loops: nat): nat
    requires g.Valid() && g.Position(c.stop)
    decreases loops
  {
    if c.len <= 0 || loops == 0 then 0
    else
      var p := g.Window(c.stop, c.len);
      WordsRead(p) + if Decode(p).Rewind? then 0 else Reads(g, Command(g, c), loops - 1)
  }

  function Start(words: seq<Uint32>): Control
    requires |words| == FIFO_WORDS
  {
    Control(words[FIFO_STOP], Length(words), [], Tally(0, 0, 0))
  }

  function RingOf(words: seq<Uint32>): Ring
    requires |words| == FIFO_WORDS
  {
    Ring(words, words[FIFO_MIN], words[FIFO_MAX])
  }

  /** `vmsvga_fifo_run` on the FIFO: the control state in which the loop ends. */
  function Run(words: seq<Uint32>): (c: Control)
    requires |words| == FIFO_WORDS && Length(words) > 0
    ensures RingOf(words).Position(c.stop)
  {
    Iterate(RingOf(words), Start(words), MAX_LOOP)
  }

  /** The words that a run reads. */
  function RunReads(words: seq<Uint32>): nat
    requires |words| == FIFO_WORDS
  {
    if Length(words) > 0 then Reads(RingOf(words), Start(words), MAX_LOOP) else 0
  }

  /** The words that a run moves STOP over. */
  function RunTakes(words: seq<Uint32>): nat
    requires |words| == FIFO_WORDS
  {
    if Length(words) > 0 then Run(words).tally.taken else 0
  }

  /** The effects carried out in order on a display. */
  ghost function ApplyAll(s: Surface, d: Display, effects: seq<Effect>): (d': Display)
    requires s.Fits(|d.vram|)
    ensures |d'.vram| == |d.vram|
    ensures |d.queue| <= REDRAW_FIFO_LEN ==> |d'.queue| <= REDRAW_FIFO_LEN
  {
    if effects == [] then d
    else Apply(s, ApplyAll(s, d, effects[..|effects| - 1]), effects[|effects| - 1])
  }

  // ----- accounting -----

  lemma DecodeCharges(p: seq<Uint32>)
    requires 0 < |p| && Decode(p).Take?
    ensures Decode(p).words == Decode(p).charge + (if HeaderWords(p[0]) == 0 then 1 else 0)
                               + (if Args(p) < 0 then TWO_32 else 0)
  {
  }

  /** One command: STOP moves by the words taken, and each is charged, uncharged or part of a wrapped count. */
  lemma CommandAccounting(g: Ring, c: Control)
    requires g.Valid() && g.Position(c.stop)
    requires c.len > 0 && Decode(g.Window(c.stop, c.len)).Take?
    ensures var c' := Command(g, c);
      && c'.tally.taken >= c.tally.taken
      && c'.stop == g.Skip(c.stop, c'.tally.taken - c.tally.taken)
      && c'.tally.taken - c.tally.taken
         == c.len - c'.len + (c'.tally.uncharged - c.tally.uncharged) + 0x1_0000_0000 * (c'.tally.negative - c.tally.negative)
      && c'.len >= 0
      && 0 <= c'.tally.uncharged - c.tally.uncharged <= 1
      && c'.tally.negative >= c.tally.negative
  {
    hide Decode, EffectOf, Args, HeaderWords, Ring.Skip, Ring.Window, Ring.Next, Ring.Position, Ring.Valid;
    DecodeCharges(g.Window(c.stop, c.len));
  }

  lemma CommandMovesStop(g: Ring, start: nat, c: Control)
    requires g.Valid() && g.Position(start) && c.stop == g.Skip(start, c.tally.taken)
    requires c.len > 0 && Decode(g.Window(c.stop, c.len)).Take?
    ensures Command(g, c).stop == g.Skip(start, Command(g, c).tally.taken)
  {
    hide Decode, EffectOf, Args, HeaderWords, Ring.Skip, Ring.Window, Ring.Next, Ring.Position, Ring.Valid;
    SkipAdds(g, start, c.tally.taken, Decode(g.Window(c.stop, c.len)).words);
  }

  /** Wherever a run that began at `start` ends, STOP has moved by exactly the words taken. */
  lemma {:induction false} StopCountsWords(g: Ring, start: nat, c: Control, loops: nat)
    requires g.Valid() && g.Position(start) && c.stop == g.Skip(start, c.tally.taken)
    ensures Iterate(g, c, loops).stop == g.Skip(start, Iterate(g, c, loops).tally.taken)
    decreases loops
  {
    hide Decode, Command, Ring.Skip, Ring.Window;
    if c.len > 0 && loops > 0 && Decode(g.Window(c.stop, c.len)).Take? {
      CommandMovesStop(g, start, c);
      StopCountsWords(g, start, Command(g, c), loops - 1);
    }
  }

  /**
   * Exact accounting. The words a run takes are those it charges, one more for every command of the group that
   * charges no command word, and 2^32 more for every command whose argument count came out negative.
   */
  lemma {:induction false} ExactAccounting(g: Ring, c: Control, loops: nat)
    requires g.Valid() && g.Position(c.stop)
    ensures var c' := Iterate(g, c, loops);
      && c'.tally.taken - c.tally.taken
         == c.len - c'.len + (c'.tally.uncharged - c.tally.uncharged) + 0x1_0000_0000 * (c'.tally.negative - c.tally.negative)
      && (c.len >= 0 ==> c'.len >= 0)
      && 0 <= c'.tally.uncharged - c.tally.uncharged <= loops
      && c'.tally.negative >= c.tally.negative
    decreases loops
  {
    hide Decode, Command, Ring.Skip, Ring.Window;
    if c.len > 0 && loops > 0 && Decode(g.Window(c.stop, c.len)).Take? {
      CommandAccounting(g, c);
      ExactAccounting(g, Command(g, c), loops - 1);
    }
  }

  /**
   * How a run ends: nothing is left, or the command limit is reached, or STOP stands at the start of a command that
   * is not complete yet, none of whose effects has happened.
   */
  lemma {:induction false} RunEnds(g: Ring, c: Control, loops: nat)
    requires g.Valid() && g.Position(c.stop)
    ensures var c' := Iterate(g, c, loops);
      && c.effects <= c'.effects
      && |c'.effects| - |c.effects| <= loops
      && (|| c'.len <= 0
          || |c'.effects| - |c.effects| == loops
          || Decode(g.Window(c'.stop, c'.len)) == Rewind)
    decreases loops
  {
    hide Decode, EffectOf, Args, HeaderWords, Ring.Skip, Ring.Window, Ring.Next;
    if c.len > 0 && loops > 0 && Decode(g.Window(c.stop, c.len)).Take? {
      RunEnds(g, Command(g, c), loops - 1);
    }
  }

  /** When no argument count was negative, a run takes at most one word too many for every uncharged command. */
  lemma OverrunIsBounded(words: seq<Uint32>)
    requires |words| == FIFO_WORDS && Length(words) > 0 && Run(words).tally.negative == 0
    ensures var c := Run(words);
      && (c.tally.taken > Length(words) <==> c.tally.uncharged > c.len)
      && c.tally.taken <= Length(words) + c.tally.uncharged <= Length(words) + MAX_LOOP
      && (c.tally.uncharged == 0 ==> c.tally.taken <= Length(words))
  {
    ExactAccounting(RingOf(words), Start(words), MAX_LOOP);
  }
}
