/**
 * The FIFO as a stream: however the guest cuts its words into pieces, the runs between the pieces execute the
 * commands of the whole stream, in order and once each (hw/display/vmware_vga.c).
 */
module FifoStream {
  import opened Words
  import opened Surfaces
  import opened Damage
  import opened Fifo

  // ----- streams of counted commands -----

  predicate HeaderPresent(p: seq<Uint32>) {
    0 < |p| && 0 < HeaderWords(p[0]) <= |p|
  }

  function Size(p: seq<Uint32>): int
    requires HeaderPresent(p)
  {
    HeaderWords(p[0]) + Args(p)
  }

  predicate Complete(p: seq<Uint32>) {
    HeaderPresent(p) && Args(p) >= 0 && Size(p) <= |p|
  }

  /** What follows the first command. */
  function Tail(p: seq<Uint32>): (r: seq<Uint32>)
    requires Complete(p)
    ensures |r| < |p|
  {
    p[Size(p)..]
  }

  /** Only commands that charge all their words, with argument counts that are not negative; the last may be cut off. */
  predicate Clean(p: seq<Uint32>)
    decreases |p|
  {
    p == [] ||
    (&& HeaderWords(p[0]) > 0
     && (HeaderPresent(p) ==> Args(p) >= 0)
     && (Complete(p) ==> Clean(Tail(p))))
  }

  /** The effects of the first `n` commands of a stream (or of all complete ones, if fewer), and the words left over. */
  function Execute(p: seq<Uint32>, n: nat): (r: (seq<Effect>, seq<Uint32>))
    ensures |r.1| <= |p| && |r.0| <= n
  {
    if n == 0 || !Complete(p) then ([], p)
    else
      var (effects, rest) := Execute(Tail(p), n - 1);
      ([EffectOf(p)] + effects, rest)
  }

  function Effects(p: seq<Uint32>): seq<Effect> {
    Execute(p, |p|).0
  }

  function Rest(p: seq<Uint32>): seq<Uint32> {
    Execute(p, |p|).1
  }

  /** Words that arrive later do not change the command at the front. */
  lemma HeadStable(p: seq<Uint32>, q: seq<Uint32>)
    requires HeaderPresent(p)
    ensures HeaderPresent(p + q) && Args(p + q) == Args(p)
    ensures Complete(p) ==>
      Complete(p + q) && EffectOf(p + q) == EffectOf(p) && Tail(p + q) == Tail(p) + q
  {
    ArgsStable(p, q);
    if Complete(p) {
      EffectStable(p, q);
    }
  }

  lemma ArgsStable(p: seq<Uint32>, q: seq<Uint32>)
    requires 0 < |p| && HeaderWords(p[0]) <= |p|
    ensures HeaderWords((p + q)[0]) == HeaderWords(p[0]) <= |p + q| && Args(p + q) == Args(p)
  {
    hide CursorArgs, Signed32;
    assert forall k :: 0 <= k < |p| ==> (p + q)[k] == p[k];
  }

  lemma EffectStable(p: seq<Uint32>, q: seq<Uint32>)
    requires Complete(p) && HeaderPresent(p + q) && Args(p + q) == Args(p)
    ensures EffectOf(p + q) == EffectOf(p)
  {
    hide CursorArgs, Signed32, CursorAccepted, CursorOf;
    assert forall k :: 0 <= k < |p| ==> (p + q)[k] == p[k];
    if p[0] == CMD_DEFINE_CURSOR {
      if CursorAccepted(p[4], p[5], p[7]) {
        CursorStable(p, q);
      }
    }
  }

  lemma CursorStable(p: seq<Uint32>, q: seq<Uint32>)
    requires 8 <= |p| && CursorAccepted(p[4], p[5], p[7])
    requires 8 + CursorArgs(Signed32(p[4]), Signed32(p[5]), p[7]) <= |p|
    ensures CursorOf(p + q) == CursorOf(p)
  {
    hide CursorArgs, Signed32, PixmapSize, BitmapSize;
    AcceptedCursor(p[4], p[5], p[7]);
    var mask := BitmapSize(Signed32(p[4]), Signed32(p[5]));
    var image := PixmapSize(Signed32(p[4]), Signed32(p[5]), p[7]);
    assert (p + q)[8..8 + mask] == p[8..8 + mask];
    assert (p + q)[8 + mask..8 + mask + image] == p[8 + mask..8 + mask + image];
  }

  lemma {:induction false} CleanPrefix(p: seq<Uint32>, q: seq<Uint32>)
    requires Clean(p + q)
    ensures Clean(p)
    decreases |p|
  {
    hide Args, HeaderWords, EffectOf;
    if p != [] {
      assert (p + q)[0] == p[0];
      if HeaderPresent(p) {
        HeadStable(p, q);
        if Complete(p) {
          CleanPrefix(Tail(p), q);
        }
      }
    }
  }

  /**
   * Stopping after `n` commands and going on later, with more words at hand, executes the same commands as
   * having all the words from the start.
   */
  lemma {:induction false} Resume(p: seq<Uint32>, q: seq<Uint32>, n: nat, m: nat)
    requires Clean(p + q) && |p + q| <= m
    ensures var (first, left) := Execute(p, n);
      && Clean(left + q)
      && |left + q| <= m
      && Execute(p + q, m).0 == first + Execute(left + q, m).0
      && Execute(p + q, m).1 == Execute(left + q, m).1
    decreases n
  {
    hide Args, HeaderWords, EffectOf, Complete, Tail, HeaderPresent, Size;
    if n > 0 && Complete(p) {
      CompleteHasHeader(p);
      HeadStable(p, q);
      Resume(Tail(p), q, n - 1, m - 1);
      var (first, left) := Execute(p, n);
      EnoughCommands(left + q, m - 1, m);
      assert first[..1] + (Execute(Tail(p), n - 1).0 + Execute(left + q, m).0) == first + Execute(left + q, m).0;
    }
  }

  lemma CompleteHasHeader(p: seq<Uint32>)
    requires Complete(p)
    ensures HeaderPresent(p) && p != []
  {
  }

  /** Every command takes at least one word, so `|p|` commands are enough. */
  lemma {:induction false} EnoughCommands(p: seq<Uint32>, n: nat, m: nat)
    requires |p| <= n && |p| <= m
    ensures Execute(p, n) == Execute(p, m)
    decreases n
  {
    hide Args, HeaderWords, EffectOf;
    if n > 0 && m > 0 && Complete(p) {
      EnoughCommands(Tail(p), n - 1, m - 1);
    }
  }

  // ----- the ring holds a stream -----

  /** Registers a well-behaved guest keeps: accepted bounds, and STOP and NEXT between them. */
  predicate WellFormed(words: seq<Uint32>) {
    && |words| == FIFO_WORDS
    && RingOf(words).Valid()
    && words[FIFO_NEXT] % 4 == 0 && words[FIFO_STOP] % 4 == 0
    && words[FIFO_MIN] <= words[FIFO_NEXT] < words[FIFO_MAX]
    && words[FIFO_MIN] <= words[FIFO_STOP] < words[FIFO_MAX]
  }

  function Capacity(words: seq<Uint32>): int
    requires |words| == FIFO_WORDS
  {
    (words[FIFO_MAX] as int - words[FIFO_MIN] as int) / 4
  }

  /** The words between STOP and NEXT, in order. */
  function Pending(words: seq<Uint32>): (p: seq<Uint32>)
    requires WellFormed(words)
    ensures |p| == Length(words) < Capacity(words)
  {
    RingOf(words).Window(words[FIFO_STOP], Length(words))
  }

  /** Within one turn of the ring a position is found by adding, with at most one wrap. */
  lemma {:induction false} SkipIsAdd(g: Ring, stop: nat, n: nat)
    requires g.Valid() && g.Position(stop) && g.min <= stop < g.max && 4 * n <= g.max - g.min
    ensures g.Skip(stop, n) == if stop + 4 * n < g.max then stop + 4 * n else stop + 4 * n - (g.max - g.min)
  {
    if n > 0 {
      SkipIsAdd(g, stop, n - 1);
    }
  }

  /** All registers but NEXT are the same. */
  predicate SameRegisters(words: seq<Uint32>, words': seq<Uint32>) {
    && |words| == |words'| == FIFO_WORDS
    && words[FIFO_MIN] == words'[FIFO_MIN] && words[FIFO_MAX] == words'[FIFO_MAX] && words[FIFO_STOP] == words'[FIFO_STOP]
  }

  /** The guest stores one word at NEXT and moves NEXT on. */
  function Put(words: seq<Uint32>, w: Uint32): (words': seq<Uint32>)
    requires WellFormed(words)
    ensures WellFormed(words')
  {
    words[words[FIFO_NEXT] / 4 := w][FIFO_NEXT := RingOf(words).Next(words[FIFO_NEXT])]
  }

  lemma PutAppends(words: seq<Uint32>, w: Uint32)
    requires WellFormed(words) && Length(words) + 1 < Capacity(words)
    ensures Pending(Put(words, w)) == Pending(words) + [w]
    ensures SameRegisters(words, Put(words, w))
  {
    var words', len, stop := Put(words, w), Length(words), words[FIFO_STOP];
    PutBounds(words, w);
    forall i | 0 <= i <= len
      ensures Pending(words')[i] == (Pending(words) + [w])[i]
    {
      PutAt(words, w, i);
    }
  }

  lemma PutBounds(words: seq<Uint32>, w: Uint32)
    requires WellFormed(words) && Length(words) + 1 < Capacity(words)
    ensures Length(Put(words, w)) == Length(words) + 1
    ensures SameRegisters(words, Put(words, w))
  {
  }

  lemma {:induction false} SameSkip(g: Ring, g': Ring, stop: nat, n: nat)
    requires g.Valid() && g'.Valid() && g.min == g'.min && g.max == g'.max && g.Position(stop)
    ensures g.Skip(stop, n) == g'.Skip(stop, n)
  {
    if n > 0 {
      SameSkip(g, g', stop, n - 1);
    }
  }

  /** The pending words and the free word at NEXT occupy different places, none of them a register. */
  lemma PendingPosition(words: seq<Uint32>, i: nat)
    requires WellFormed(words) && Length(words) + 1 < Capacity(words) && i <= Length(words)
    ensures var pos := RingOf(words).Skip(words[FIFO_STOP], i);
      16 <= pos < words[FIFO_MAX] && pos % 4 == 0 && (pos == words[FIFO_NEXT] <==> i == Length(words))
  {
    SkipIsAdd(RingOf(words), words[FIFO_STOP], i);
  }

  lemma PutAt(words: seq<Uint32>, w: Uint32, i: nat)
    requires WellFormed(words) && Length(words) + 1 < Capacity(words) && i <= Length(words)
    requires Length(Put(words, w)) == Length(words) + 1
    ensures Pending(Put(words, w))[i] == if i < Length(words) then Pending(words)[i] else w
  {
    hide Length, Capacity, Ring.Skip, Ring.Next;
    SameSkip(RingOf(words), RingOf(Put(words, w)), words[FIFO_STOP], i);
    PendingPosition(words, i);
  }

  /** The guest stores a piece of the stream, one word at a time. */
  function PutAll(words: seq<Uint32>, piece: seq<Uint32>): (words': seq<Uint32>)
    requires WellFormed(words)
    ensures WellFormed(words')
    decreases |piece|
  {
    if piece == [] then words else PutAll(Put(words, piece[0]), piece[1..])
  }

  lemma {:induction false} PutAllAppends(words: seq<Uint32>, piece: seq<Uint32>)
    requires WellFormed(words) && Length(words) + |piece| < Capacity(words)
    ensures Pending(PutAll(words, piece)) == Pending(words) + piece
    ensures SameRegisters(words, PutAll(words, piece))
    decreases |piece|
  {
    hide Put, Pending, Length;
    if piece != [] {
      PutAppends(words, piece[0]);
      PutAllAppends(Put(words, piece[0]), piece[1..]);
      assert Pending(words) + [piece[0]] + piece[1..] == Pending(words) + piece;
    }
  }

  // ----- runs over the stream -----

  /** On a stream of counted commands, decoding takes exactly the complete commands. */
  lemma DecodesComplete(p: seq<Uint32>)
    requires Clean(p) && 0 < |p| < TWO_31
    ensures Decode(p).Take? <==> Complete(p)
    ensures Complete(p) ==> Decode(p) == Take(Size(p), Size(p))
  {
    hide Args, HeaderWords;
  }

  lemma CommandTakesHead(g: Ring, c: Control)
    requires g.Valid() && g.Position(c.stop) && 0 < c.len < TWO_31
    requires Clean(g.Window(c.stop, c.len)) && Complete(g.Window(c.stop, c.len))
    ensures Decode(g.Window(c.stop, c.len)).Take?
    ensures var p, c' := g.Window(c.stop, c.len), Command(g, c);
      && 0 <= c'.len < c.len && g.Window(c'.stop, c'.len) == Tail(p) && Clean(Tail(p))
      && c'.effects == c.effects + [EffectOf(p)]
      && c'.tally.taken - c.tally.taken == c.len - c'.len
  {
    hide Args, HeaderWords, EffectOf, Ring.Window, Ring.Skip, Decode;
    var p := g.Window(c.stop, c.len);
    DecodesComplete(p);
    WindowTail(g, c.stop, c.len, Size(p));
  }

  /** The loop, started on a stream of counted commands, executes it. */
  lemma {:induction false} RunExecutes(g: Ring, c: Control, loops: nat)
    requires g.Valid() && g.Position(c.stop) && 0 <= c.len < TWO_31 && Clean(g.Window(c.stop, c.len))
    ensures var c', (effects, rest) := Iterate(g, c, loops), Execute(g.Window(c.stop, c.len), loops);
      && c'.effects == c.effects + effects
      && c'.len == |rest| && g.Window(c'.stop, c'.len) == rest
      && c'.tally.taken - c.tally.taken == c.len - c'.len
    decreases loops
  {
    hide Args, HeaderWords, EffectOf, Ring.Window, Ring.Skip, Decode, Command, Complete, Clean, Tail;
    var p := g.Window(c.stop, c.len);
    if p != [] && loops > 0 {
      DecodesComplete(p);
      if Complete(p) {
        CommandTakesHead(g, c);
        RunExecutes(g, Command(g, c), loops - 1);
      }
    } else {
      EmptyIsStuck(p);
    }
  }

  lemma EmptyIsStuck(p: seq<Uint32>)
    ensures p == [] ==> !Complete(p)
  {
  }

  /** The FIFO after a run: only the STOP register has changed. */
  function AfterRun(words: seq<Uint32>): (words': seq<Uint32>)
    requires |words| == FIFO_WORDS
    ensures |words'| == FIFO_WORDS
  {
    if Length(words) > 0 then words[FIFO_STOP := Run(words).stop] else words
  }

  function RunEffects(words: seq<Uint32>): seq<Effect>
    requires |words| == FIFO_WORDS
  {
    if Length(words) > 0 then Run(words).effects else []
  }

  /** Moving STOP over `n` pending words drops them from the stream and disturbs nothing else. */
  lemma StopMoves(words: seq<Uint32>, n: nat)
    requires WellFormed(words) && n <= Length(words)
    ensures var words' := words[FIFO_STOP := RingOf(words).Skip(words[FIFO_STOP], n)];
      && WellFormed(words') && Length(words') == Length(words) - n && Capacity(words') == Capacity(words)
      && Pending(words') == Pending(words)[n..]
  {
    hide Length, Capacity, Ring.Skip, Ring.Next, Ring.WordAt;
    var g, stop, len := RingOf(words), words[FIFO_STOP], Length(words);
    StopMovesLength(words, n);
    var words' := words[FIFO_STOP := g.Skip(stop, n)];
    forall i | 0 <= i < len - n
      ensures Pending(words')[i] == Pending(words)[n..][i]
    {
      StopMovesAt(words, n, i);
    }
  }

  lemma StopMovesLength(words: seq<Uint32>, n: nat)
    requires WellFormed(words) && n <= Length(words)
    ensures var words' := words[FIFO_STOP := RingOf(words).Skip(words[FIFO_STOP], n)];
      WellFormed(words') && Length(words') == Length(words) - n && Capacity(words') == Capacity(words)
  {
    hide Ring.Skip, Ring.Next;
    SkipIsAdd(RingOf(words), words[FIFO_STOP], n);
  }

  lemma StopMovesAt(words: seq<Uint32>, n: nat, i: nat)
    requires WellFormed(words) && n + i < Length(words)
    ensures var g, pos := RingOf(words), RingOf(words).Skip(words[FIFO_STOP], n);
      var words' := words[FIFO_STOP := pos];
      RingOf(words').WordAt(RingOf(words').Skip(pos, i)) == g.WordAt(g.Skip(words[FIFO_STOP], n + i))
  {
    hide Ring.Skip, Ring.Next;
    var g, stop := RingOf(words), words[FIFO_STOP];
    SkipAdds(g, stop, n, i);
    SkipIsAdd(g, stop, n + i);
    SameSkip(g, RingOf(words[FIFO_STOP := g.Skip(stop, n)]), g.Skip(stop, n), i);
  }

  /** A run executes the pending stream, up to its command limit, and leaves the rest pending. */
  lemma RunConsumes(words: seq<Uint32>)
    requires WellFormed(words) && Clean(Pending(words))
    ensures WellFormed(AfterRun(words)) && Capacity(AfterRun(words)) == Capacity(words)
    ensures var (effects, rest) := Execute(Pending(words), MAX_LOOP);
      && RunEffects(words) == effects
      && Pending(AfterRun(words)) == rest
      && AfterRun(words)[FIFO_STOP] == RingOf(words).Skip(words[FIFO_STOP], |Pending(words)| - |rest|)
  {
    hide Clean, Iterate, Ring.Window, Complete, Ring.Next, Capacity;
    var g, stop := RingOf(words), words[FIFO_STOP];
    if Length(words) > 0 {
      RunExecutes(g, Start(words), MAX_LOOP);
      StopCountsWords(g, stop, Start(words), MAX_LOOP);
      var n := |Pending(words)| - |Execute(Pending(words), MAX_LOOP).1|;
      StopMoves(words, n);
      WindowTail(g, stop, Length(words), n);
    } else {
      EmptyIsStuck(Pending(words));
    }
  }

  // ----- histories -----

  /** The guest stores each piece in turn, and the device runs after each. */
  function Feed(words: seq<Uint32>, pieces: seq<seq<Uint32>>): (r: (seq<Uint32>, seq<Effect>))
    requires WellFormed(words) && Fits(words, pieces)
    decreases |pieces|
  {
    if pieces == [] then (words, [])
    else
      var words1 := PutAll(words, pieces[0]);
      var (words2, effects) := Feed(AfterRun(words1), pieces[1..]);
      (words2, RunEffects(words1) + effects)
  }

  /** Each piece finds room in the ring when its turn comes; the pieces together may be much longer than the ring. */
  predicate Fits(words: seq<Uint32>, pieces: seq<seq<Uint32>>)
    requires WellFormed(words)
    decreases |pieces|
  {
    pieces == [] ||
    (&& Length(words) + |pieces[0]| < Capacity(words)
     && var words1 := PutAll(words, pieces[0]);
        WellFormed(AfterRun(words1)) && Fits(AfterRun(words1), pieces[1..]))
  }

  function Flatten(pieces: seq<seq<Uint32>>): seq<Uint32>
    decreases |pieces|
  {
    if pieces == [] then [] else pieces[0] + Flatten(pieces[1..])
  }

  /**
   * At every moment of every history, what has been executed followed by what the pending words still hold is the
   * execution of the whole stream, and STOP has moved over exactly the words gone. This holds even for histories in
   * which runs stop at their command limit.
   */
  lemma {:induction false} FeedExecutesStream(words: seq<Uint32>, pieces: seq<seq<Uint32>>)
    requires WellFormed(words) && Fits(words, pieces) && Clean(Pending(words) + Flatten(pieces))
    ensures var (words', effects), stream := Feed(words, pieces), Pending(words) + Flatten(pieces);
      && WellFormed(words')
      && Clean(Pending(words'))
      && Effects(stream) == effects + Effects(Pending(words'))
      && Rest(stream) == Rest(Pending(words'))
      && |Pending(words')| <= |stream|
      && words'[FIFO_STOP] == RingOf(words).Skip(words[FIFO_STOP], |stream| - |Pending(words')|)
    decreases |pieces|
  {
    hide Clean, Execute, Ring.Skip, Put, PutAll, AfterRun, Run, RunEffects, Pending, Length, Capacity;
    if pieces == [] {
      assert Pending(words) + [] == Pending(words);
      assert RingOf(words).Skip(words[FIFO_STOP], 0) == words[FIFO_STOP] by { SkipNothing(RingOf(words), words[FIFO_STOP]); }
    } else {
      var words1, later := PutAll(words, pieces[0]), Flatten(pieces[1..]);
      var now := Pending(words1);
      PutAllAppends(words, pieces[0]);
      assert Pending(words) + Flatten(pieces) == now + later;
      CleanPrefix(now, later);
      RunConsumes(words1);
      ResumeStream(now, later);
      FeedExecutesStream(AfterRun(words1), pieces[1..]);
      FeedMovesStop(words, words1, |now|, |Pending(AfterRun(words1))|, |later|,
                    |Pending(Feed(AfterRun(words1), pieces[1..]).0)|);
      var (first, left) := Execute(now, MAX_LOOP);
      var last := Pending(Feed(words, pieces).0);
      assert first + (Feed(AfterRun(words1), pieces[1..]).1 + Effects(last))
          == (first + Feed(AfterRun(words1), pieces[1..]).1) + Effects(last);
    }
  }

  lemma SkipNothing(g: Ring, stop: nat)
    requires g.Valid() && g.Position(stop)
    ensures g.Skip(stop, 0) == stop
  {
  }

  lemma ResumeStream(now: seq<Uint32>, later: seq<Uint32>)
    requires Clean(now + later)
    ensures var (first, left) := Execute(now, MAX_LOOP);
      && Clean(left + later)
      && Effects(now + later) == first + Effects(left + later)
      && Rest(now + later) == Rest(left + later)
  {
    hide Clean, Execute;
    var m, left := |now + later|, Execute(now, MAX_LOOP).1;
    Resume(now, later, MAX_LOOP, m);
    EnoughCommands(left + later, |left + later|, m);
  }

  /** STOP moves over the words of this run, then over those of the later ones. */
  lemma FeedMovesStop(words: seq<Uint32>, words1: seq<Uint32>, now: nat, left: nat, later: nat, last: nat)
    requires WellFormed(words) && WellFormed(words1) && WellFormed(AfterRun(words1)) && SameRegisters(words, words1)
    requires left <= now && last <= left + later
    requires AfterRun(words1)[FIFO_STOP] == RingOf(words1).Skip(words1[FIFO_STOP], now - left)
    ensures RingOf(AfterRun(words1)).Skip(AfterRun(words1)[FIFO_STOP], left + later - last)
         == RingOf(words).Skip(words[FIFO_STOP], now + later - last)
  {
    hide Ring.Skip, Run, Length;
    var g, g2, stop := RingOf(words), RingOf(AfterRun(words1)), words[FIFO_STOP];
    SameSkip(g, RingOf(words1), stop, now - left);
    SameSkip(g, g2, g.Skip(stop, now - left), left + later - last);
    SkipAdds(g, stop, now - left, left + later - last);
  }

  /** No complete command is pending: the last run was not cut short by its command limit. */
  predicate Settled(words: seq<Uint32>)
    requires WellFormed(words)
  {
    !Complete(Pending(words))
  }

  lemma SettledExecutesNothing(words: seq<Uint32>)
    requires WellFormed(words) && Settled(words)
    ensures Effects(Pending(words)) == [] && Rest(Pending(words)) == Pending(words)
  {
    hide Pending, Complete;
  }

  /**
   * Chunking invariance. Two ways of cutting the same stream into pieces, each with runs in between, give the same
   * commands in the same order, hence the same VRAM, redraw queue and log of rectangles and cursors, and leave STOP
   * at the same place before the same incomplete command.
   */
  lemma ChunkingInvariance(words: seq<Uint32>, s: Surface, d: Display, a: seq<seq<Uint32>>, b: seq<seq<Uint32>>)
    requires WellFormed(words) && s.Fits(|d.vram|)
    requires Fits(words, a) && Fits(words, b) && Flatten(a) == Flatten(b)
    requires Clean(Pending(words) + Flatten(a))
    requires WellFormed(Feed(words, a).0) && Settled(Feed(words, a).0)
    requires WellFormed(Feed(words, b).0) && Settled(Feed(words, b).0)
    ensures var (wordsA, effectsA), (wordsB, effectsB) := Feed(words, a), Feed(words, b);
      && effectsA == effectsB
      && ApplyAll(s, d, effectsA) == ApplyAll(s, d, effectsB)
      && Pending(wordsA) == Pending(wordsB)
      && wordsA[FIFO_STOP] == wordsB[FIFO_STOP]
  {
    hide *;
    FeedExecutesStream(words, a);
    FeedExecutesStream(words, b);
    SettledExecutesNothing(Feed(words, a).0);
    SettledExecutesNothing(Feed(words, b).0);
    assert Feed(words, a).1 + [] == Feed(words, a).1;
    assert Feed(words, b).1 + [] == Feed(words, b).1;
  }

  /** A stream of at most 1023 commands in all settles however it is cut. */
  lemma {:induction false} ShortStreamsSettle(words: seq<Uint32>, pieces: seq<seq<Uint32>>)
    requires WellFormed(words) && Fits(words, pieces) && pieces != []
    requires Clean(Pending(words) + Flatten(pieces)) && |Effects(Pending(words) + Flatten(pieces))| <= MAX_LOOP
    ensures WellFormed(Feed(words, pieces).0) && Settled(Feed(words, pieces).0)
    decreases |pieces|
  {
    hide Clean, Execute, Ring.Skip, Put, PutAll, AfterRun, Run, RunEffects, Pending, Length, Capacity, Complete;
    var words1, later := PutAll(words, pieces[0]), Flatten(pieces[1..]);
    var now := Pending(words1);
    PutAllAppends(words, pieces[0]);
    assert Pending(words) + Flatten(pieces) == now + later;
    CleanPrefix(now, later);
    RunConsumes(words1);
    ResumeStream(now, later);
    if |pieces| == 1 {
      assert now + [] == now;
      LimitNotReached(now);
    } else {
      ShortStreamsSettle(AfterRun(words1), pieces[1..]);
    }
  }

  /** A stream shorter than the ring finds room however it is cut. */
  lemma {:induction false} SmallStreamsFit(words: seq<Uint32>, pieces: seq<seq<Uint32>>)
    requires WellFormed(words) && Clean(Pending(words) + Flatten(pieces))
    requires |Pending(words)| + |Flatten(pieces)| < Capacity(words)
    ensures Fits(words, pieces)
    decreases |pieces|
  {
    hide Clean, Execute, Ring.Skip, Put, PutAll, AfterRun, Run, RunEffects, Pending, Length, Capacity;
    if pieces != [] {
      var words1, later := PutAll(words, pieces[0]), Flatten(pieces[1..]);
      var now := Pending(words1);
      PutAllAppends(words, pieces[0]);
      SameCapacity(words, words1);
      assert Pending(words) + Flatten(pieces) == now + later;
      CleanPrefix(now, later);
      RunConsumes(words1);
      ResumeStream(now, later);
      SmallStreamsFit(AfterRun(words1), pieces[1..]);
    }
  }

  lemma SameCapacity(words: seq<Uint32>, words': seq<Uint32>)
    requires SameRegisters(words, words')
    ensures Capacity(words) == Capacity(words')
  {
  }

  lemma LimitNotReached(p: seq<Uint32>)
    requires |Effects(p)| <= MAX_LOOP
    ensures !Complete(Execute(p, MAX_LOOP).1)
  {
    ExecuteAll(p, MAX_LOOP);
  }

  lemma {:induction false} ExecuteAll(p: seq<Uint32>, n: nat)
    requires |Effects(p)| <= n
    ensures !Complete(Execute(p, n).1)
    decreases n
  {
    hide Args, HeaderWords, EffectOf, Complete;
    if Complete(p) {
      EnoughCommands(Tail(p), |p| - 1, |Tail(p)|);
      ExecuteAll(Tail(p), n - 1);
    }
  }
}
