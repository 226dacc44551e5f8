/**
 * The guest's side of the command FIFO: commands written down as words, and what becomes of them
 * (hw/display/vmware_vga.c).
 */
module GuestCommands {
  import opened Words
  import opened Surfaces
  import opened Damage
  import opened Fifo
  import opened FifoStream

  predicate IsInt32(i: int) {
    -TWO_31 <= i < TWO_31
  }

  predicate RectFits(r: Rect) {
    IsInt32(r.x) && IsInt32(r.y) && IsInt32(r.w) && IsInt32(r.h)
  }

  /** Commands a guest can ask for: operands that fit their words, and cursors within the device's limits. */
  predicate Encodable(e: Effect) {
    match e
    case Nothing => false
    case Update(r) => RectFits(r)
    case Fill(_, r) => RectFits(r)
    case Copy(x0, y0, dst) => IsInt32(x0) && IsInt32(y0) && RectFits(dst)
    case Cursor(c) =>
      && IsInt32(c.id) && IsInt32(c.hotX) && IsInt32(c.hotY)
      && c.width <= 256 && c.height <= 256 && c.bpp <= 32
      && |c.mask| == MaskWords(c.width, c.height) <= 1024
      && |c.image| == ImageWords(c.width, c.height, c.bpp) <= 4096
  }

  function RectWords(r: Rect): (w: seq<Uint32>)
    ensures |w| == 4
  {
    [Wrap32(r.x), Wrap32(r.y), Wrap32(r.w), Wrap32(r.h)]
  }

  /** A command as the words of its operation code, its operands, and for a cursor its two bitmaps. */
  function Encode(e: Effect): (p: seq<Uint32>)
    requires Encodable(e)
    ensures p != []
  {
    match e
    case Update(r) => [1] + RectWords(r)
    case Fill(colour, r) => [2, colour] + RectWords(r)
    case Copy(x0, y0, dst) => [3, Wrap32(x0), Wrap32(y0)] + RectWords(dst)
    case Cursor(c) =>
      [19, Wrap32(c.id), Wrap32(c.hotX), Wrap32(c.hotY), c.width, c.height, 0, c.bpp] + c.mask + c.image
  }

  lemma SignedWrap(i: int)
    requires IsInt32(i)
    ensures Signed32(Wrap32(i)) == i
  {
  }

  lemma RectRoundTrip(r: Rect, p: seq<Uint32>, k: nat)
    requires RectFits(r) && k + 4 <= |p| && p[k..k + 4] == RectWords(r)
    ensures RectAt(p, k) == r
  {
    hide Signed32, Wrap32;
    SignedWrap(r.x);
    SignedWrap(r.y);
    SignedWrap(r.w);
    SignedWrap(r.h);
    var w := p[k..k + 4];
    assert w[0] == p[k] && w[1] == p[k + 1] && w[2] == p[k + 2] && w[3] == p[k + 3];
  }

  lemma CursorRoundTrip(c: CursorDefinition, p: seq<Uint32>)
    requires Encodable(Cursor(c)) && p == Encode(Cursor(c))
    ensures Complete(p) && Size(p) == |p| && EffectOf(p) == Cursor(c)
  {
    hide Signed32, Wrap32, BitmapSize, PixmapSize, CursorArgs, MaskWords, ImageWords;
    CursorRows(c.width, c.height, c.bpp);
    AcceptedExactly(c.width, c.height, c.bpp);
    SignedWrap(c.id);
    SignedWrap(c.hotX);
    SignedWrap(c.hotY);
    SmallSigned(c.width);
    SmallSigned(c.height);
    AcceptedCursor(c.width, c.height, c.bpp);
    var n := |c.mask|;
    assert p[8..8 + n] == c.mask;
    assert p[8 + n..8 + n + |c.image|] == c.image;
  }

  /** The decoder understands what the guest wrote: the same command, and exactly its words. */
  lemma CommandRoundTrip(e: Effect)
    requires Encodable(e)
    ensures Complete(Encode(e)) && Size(Encode(e)) == |Encode(e)| && EffectOf(Encode(e)) == e
  {
    hide Signed32, Wrap32, CursorArgs, RectWords, RectAt;
    var p := Encode(e);
    match e
    case Update(r) =>
      assert p[1..5] == RectWords(r);
      RectRoundTrip(r, p, 1);
    case Fill(colour, r) =>
      assert p[2..6] == RectWords(r);
      RectRoundTrip(r, p, 2);
    case Copy(x0, y0, dst) =>
      assert p[3..7] == RectWords(dst);
      RectRoundTrip(dst, p, 3);
      SignedWrap(x0);
      SignedWrap(y0);
    case Cursor(c) => CursorRoundTrip(c, p);
  }

  // ----- the other commands -----

  /** A command that the device reads and skips, with all its operands. */
  datatype Skipped =
    | AlphaCursor(id: Uint32, hotX: Uint32, hotY: Uint32, width: nat, height: nat, image: seq<Uint32>)
    | RefusedCursor(id: Uint32, hotX: Uint32, hotY: Uint32, width: nat, height: nat, bpp: Uint32, operands: seq<Uint32>)
    | GlyphClipped(x: Uint32, y: Uint32, bytes: Uint32, operands: seq<Uint32>)
    | RopFill(operands: seq<Uint32>)
    | RopCopy(operands: seq<Uint32>)
    | AlphaBlend(operands: seq<Uint32>)
    | Bare(code: Uint32)

  predicate BeyondLimits(width: nat, height: nat, bpp: nat) {
    width > 256 || height > 256 || bpp > 32 || MaskWords(width, height) > 1024 || ImageWords(width, height, bpp) > 4096
  }

  /**
   * A cursor beyond the limits is skipped with its mask and image. Images with alpha have one word per pixel, and glyph
   * data comes in whole words after seven operands.
   */
  predicate Skippable(c: Skipped) {
    match c
    case AlphaCursor(_, _, _, width, height, image) =>
      |image| == width * height < TWO_31 && width < TWO_31 && height < TWO_31
    case RefusedCursor(_, _, _, width, height, bpp, operands) =>
      && width < TWO_31 - 31 && height < TWO_31 && width * bpp < TWO_32 - 31
      && |operands| == MaskWords(width, height) + ImageWords(width, height, bpp) < TWO_31
      && BeyondLimits(width, height, bpp)
    case GlyphClipped(_, _, bytes, operands) => |operands| == 7 + bytes / 4
    case RopFill(operands) => |operands| == 6
    case RopCopy(operands) => |operands| == 7
    case AlphaBlend(operands) => |operands| == 12
    case Bare(code) => code !in {1, 2, 3, 13, 14, 19, 22, 24, 25, 28}
  }

  function SkippedWords(c: Skipped): (p: seq<Uint32>)
    requires Skippable(c)
    ensures p != []
  {
    match c
    case AlphaCursor(id, hotX, hotY, width, height, image) => [22, id, hotX, hotY, width, height] + image
    case RefusedCursor(id, hotX, hotY, width, height, bpp, operands) =>
      [19, id, hotX, hotY, width, height, 0, bpp] + operands
    case GlyphClipped(x, y, bytes, operands) => [24, x, y, bytes] + operands
    case RopFill(operands) => [13] + operands
    case RopCopy(operands) => [14] + operands
    case AlphaBlend(operands) => [28] + operands
    case Bare(code) => [code]
  }

  /** The device charges the command word only of the first three. */
  predicate ChargesItself(c: Skipped) {
    c.AlphaCursor? || c.RefusedCursor? || c.GlyphClipped?
  }

  lemma SignedIs(i: int)
    requires IsInt32(i)
    ensures Signed32(i) == i
  {
  }

  lemma RefusedCursorArgs(width: nat, height: nat, bpp: Uint32)
    requires width < TWO_31 - 31 && height < TWO_31 && width * bpp < TWO_32 - 31
    requires MaskWords(width, height) + ImageWords(width, height, bpp) < TWO_31 && BeyondLimits(width, height, bpp)
    ensures CursorArgs(Signed32(width), Signed32(height), bpp) == MaskWords(width, height) + ImageWords(width, height, bpp)
    ensures !CursorAccepted(width, height, bpp)
  {
    hide Signed32, Wrap32, BitmapSize, PixmapSize, RowWords, MaskWords, ImageWords, CursorAccepted;
    SignedIs(width);
    SignedIs(height);
    RefusedRows(width, height, bpp);
    AcceptedExactly(width, height, bpp);
  }

  lemma RefusedRows(width: nat, height: nat, bpp: Uint32)
    requires width < TWO_31 - 31 && height < TWO_31 && width * bpp < TWO_32 - 31
    requires MaskWords(width, height) < TWO_31 && ImageWords(width, height, bpp) < TWO_31
    ensures BitmapSize(width, height) == MaskWords(width, height)
    ensures PixmapSize(width, height, bpp) == ImageWords(width, height, bpp)
  {
    hide Signed32, Wrap32, BitmapSize, PixmapSize;
    Product(width, bpp, width, bpp);
    BitmapRows(width, height, RowWords(width));
    PixmapRows(width, height, bpp, RowWords(width * bpp));
  }

  /** A skipped command is read over completely, has no effect, and is charged all its words or all but one. */
  lemma SkippedRoundTrip(c: Skipped)
    requires Skippable(c) && |SkippedWords(c)| < TWO_31
    ensures var p := SkippedWords(c);
      Decode(p) == Take(|p|, |p| - (if ChargesItself(c) then 0 else 1)) && EffectOf(p) == Nothing
  {
    hide Signed32, CursorArgs, CursorAccepted, CursorOf, RectAt;
    var p := SkippedWords(c);
    match c
    case AlphaCursor(_, _, _, width, height, _) =>
      SignedIs(width);
      SignedIs(height);
      SignedIs(width * height);
    case RefusedCursor(_, _, _, width, height, bpp, _) => RefusedCursorArgs(width, height, bpp);
    case _ =>
  }

  /** The verbose update is an update. */
  lemma VerboseRoundTrip(r: Rect)
    requires RectFits(r)
    ensures var p := [25] + RectWords(r);
      Complete(p) && Size(p) == 5 && EffectOf(p) == Update(r)
  {
    hide Signed32, Wrap32, CursorArgs, RectWords, RectAt;
    var p := [25] + RectWords(r);
    assert p[1..5] == RectWords(r);
    RectRoundTrip(r, p, 1);
  }

  // ----- programs -----

  predicate AllEncodable(es: seq<Effect>) {
    forall e :: e in es ==> Encodable(e)
  }

  function EncodeAll(es: seq<Effect>): seq<Uint32>
    requires AllEncodable(es)
    decreases |es|
  {
    if es == [] then [] else Encode(es[0]) + EncodeAll(es[1..])
  }

  /** A list of commands written one after another is a clean stream, and executing it yields the list. */
  lemma {:induction false} ProgramRoundTrip(es: seq<Effect>)
    requires AllEncodable(es)
    ensures Clean(EncodeAll(es)) && Effects(EncodeAll(es)) == es && Rest(EncodeAll(es)) == []
    decreases |es|
  {
    hide Encode, Encodable, HeaderWords, Args, EffectOf;
    if es != [] {
      var first, later := Encode(es[0]), EncodeAll(es[1..]);
      CommandRoundTrip(es[0]);
      HeadStable(first, later);
      assert Tail(first) == [];
      assert Tail(first) + later == later;
      ProgramRoundTrip(es[1..]);
      EnoughCommands(later, |later|, |first + later| - 1);
    }
  }

  /**
   * Whatever pieces the guest's stores and the device's runs cut a drawing program into, the device executes the
   * program: every command once, in order, and nothing else, with nothing left over.
   */
  lemma ProgramIsExecuted(words: seq<Uint32>, s: Surface, d: Display, es: seq<Effect>, pieces: seq<seq<Uint32>>)
    requires WellFormed(words) && Pending(words) == [] && s.Fits(|d.vram|)
    requires AllEncodable(es) && Flatten(pieces) == EncodeAll(es) && Fits(words, pieces)
    requires WellFormed(Feed(words, pieces).0) && Settled(Feed(words, pieces).0)
    ensures Feed(words, pieces).1 == es && Pending(Feed(words, pieces).0) == []
    ensures ApplyAll(s, d, Feed(words, pieces).1) == ApplyAll(s, d, es)
  {
    hide *;
    var (words', effects) := Feed(words, pieces);
    ProgramRoundTrip(es);
    assert Pending(words) + Flatten(pieces) == EncodeAll(es);
    FeedExecutesStream(words, pieces);
    SettledExecutesNothing(words');
    assert effects + [] == effects;
  }

  /**
   * For a program that fits in the ring and has at most 1023 commands nothing is left to assume about the pieces:
   * however they are cut, every store finds room and the program is executed.
   */
  lemma SmallProgramIsExecuted(words: seq<Uint32>, s: Surface, d: Display, es: seq<Effect>, pieces: seq<seq<Uint32>>)
    requires WellFormed(words) && Pending(words) == [] && s.Fits(|d.vram|)
    requires AllEncodable(es) && Flatten(pieces) == EncodeAll(es) && pieces != []
    requires |EncodeAll(es)| < Capacity(words) && |es| <= MAX_LOOP
    ensures Fits(words, pieces)
    ensures Feed(words, pieces).1 == es && WellFormed(Feed(words, pieces).0) && Pending(Feed(words, pieces).0) == []
    ensures ApplyAll(s, d, Feed(words, pieces).1) == ApplyAll(s, d, es)
  {
    hide *;
    ProgramRoundTrip(es);
    assert Pending(words) + Flatten(pieces) == EncodeAll(es);
    SmallStreamsFit(words, pieces);
    ShortStreamsSettle(words, pieces);
    ProgramIsExecuted(words, s, d, es, pieces);
  }

  /** From the guest's words to the pixels: a copy stored in any pieces moves every pixel of its rectangle. */
  lemma CopyReachesVram(words: seq<Uint32>, s: Surface, d: Display, x0: int, y0: int, dst: Rect, pieces: seq<seq<Uint32>>,
                        dx: int, dy: int, b: int)
    requires WellFormed(words) && Pending(words) == [] && s.Fits(|d.vram|) && pieces != []
    requires Encodable(Copy(x0, y0, dst)) && Flatten(pieces) == Encode(Copy(x0, y0, dst))
    requires CopyVerified(s, x0, y0, dst) && 0 <= dx < dst.w && 0 <= dy < dst.h && 0 <= b < s.bypp
    ensures Fits(words, pieces)
    ensures 0 <= s.Address(x0 + dx, y0 + dy) + b < |d.vram|
    ensures 0 <= s.Address(dst.x + dx, dst.y + dy) + b < |d.vram|
    ensures ApplyAll(s, d, Feed(words, pieces).1).vram[s.Address(dst.x + dx, dst.y + dy) + b]
         == d.vram[s.Address(x0 + dx, y0 + dy) + b]
  {
    hide *;
    OneCommandIsExecuted(words, s, d, Copy(x0, y0, dst), pieces);
    CopyDraws(s, d, x0, y0, dst, dx, dy, b);
  }

  /** And a fill sets every pixel of its rectangle. */
  lemma FillReachesVram(words: seq<Uint32>, s: Surface, d: Display, colour: Uint32, r: Rect, pieces: seq<seq<Uint32>>,
                        x: int, y: int, b: nat)
    requires WellFormed(words) && Pending(words) == [] && s.Fits(|d.vram|) && pieces != []
    requires Encodable(Fill(colour, r)) && Flatten(pieces) == Encode(Fill(colour, r))
    requires VerifyRect(s, r) && Inside(r, x, y) && b < s.bypp
    ensures Fits(words, pieces)
    ensures 0 <= s.Address(x, y) + b < |d.vram|
    ensures ApplyAll(s, d, Feed(words, pieces).1).vram[s.Address(x, y) + b] == LittleEndianByte(colour, b)
  {
    hide *;
    OneCommandIsExecuted(words, s, d, Fill(colour, r), pieces);
    FillDraws(s, d, colour, r, x, y, b);
  }

  lemma OneCommandIsExecuted(words: seq<Uint32>, s: Surface, d: Display, e: Effect, pieces: seq<seq<Uint32>>)
    requires WellFormed(words) && Pending(words) == [] && s.Fits(|d.vram|) && pieces != []
    requires Encodable(e) && Flatten(pieces) == Encode(e) && !e.Cursor?
    ensures Fits(words, pieces) && ApplyAll(s, d, Feed(words, pieces).1) == Apply(s, d, e)
  {
    hide Encode, Encodable, Feed, Fits, Apply, Pending;
    OneCommandProgram(e);
    assert Capacity(words) > 7;
    SmallProgramIsExecuted(words, s, d, [e], pieces);
    assert [e][..0] == [] && ApplyAll(s, d, []) == d;
    assert ApplyAll(s, d, [e]) == Apply(s, d, e);
  }

  lemma OneCommandProgram(e: Effect)
    requires Encodable(e)
    ensures AllEncodable([e]) && EncodeAll([e]) == Encode(e) && (!e.Cursor? ==> |Encode(e)| <= 7)
  {
    assert [e][1..] == [] && EncodeAll([]) == [];
  }
}
