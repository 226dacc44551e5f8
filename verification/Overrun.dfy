/**
 * When a run of the command FIFO reads past NEXT. A command of the group that charges no command word leaves the loop
 * believing in one more word than there is (hw/display/vmware_vga.c).
 */
module Overrun {
  import opened Words
  import opened Fifo
  import opened FifoStream

  // ----- the commands that really are in the FIFO -----

  /** The words that the first command occupies, whether or not the device charges all of them. */
  function TrueSize(p: seq<Uint32>): int
    requires 0 < |p| && HeaderWords(p[0]) <= |p|
  {
    (if HeaderWords(p[0]) == 0 then 1 else HeaderWords(p[0])) + Args(p)
  }

  predicate StartsWhole(p: seq<Uint32>) {
    0 < |p| && HeaderWords(p[0]) <= |p| && Args(p) >= 0 && TrueSize(p) <= |p|
  }

  /** The whole commands at the start of a stream, how many of them are uncharged, and the words left over. */
  datatype Parsed = Parsed(commands: nat, uncharged: nat, rest: seq<Uint32>)

  function Parse(p: seq<Uint32>): (q: Parsed)
    ensures |q.rest| <= |p| && q.uncharged <= q.commands && !StartsWhole(q.rest)
    decreases |p|
  {
    if !StartsWhole(p) then Parsed(0, 0, p)
    else
      var q := Parse(p[TrueSize(p)..]);
      Parsed(q.commands + 1, q.uncharged + (if HeaderWords(p[0]) == 0 then 1 else 0), q.rest)
  }

  // ----- one command -----

  /** However many words the loop believes there are, a whole command is decoded by its own words. */
  lemma DecodesWhole(p: seq<Uint32>, extra: seq<Uint32>)
    requires StartsWhole(p) && |p + extra| < TWO_31
    ensures Decode(p + extra) == Take(TrueSize(p), HeaderWords(p[0]) + Args(p))
  {
    hide Args, HeaderWords;
    ArgsStable(p, extra);
  }

  /** And a command that is not whole, if it is taken at all, is taken with words that are not there. */
  lemma TakesMore(p: seq<Uint32>, extra: seq<Uint32>)
    requires !StartsWhole(p) && 0 < |p + extra| && |p| < TWO_31 && Decode(p + extra).Take?
    ensures Decode(p + extra).words > |p|
  {
    hide Args;
    if 0 < |p| {
      assert (p + extra)[0] == p[0];
      if HeaderWords(p[0]) <= |p| {
        ArgsStable(p, extra);
      }
    }
  }

  /** One turn of the loop over a whole command at the start of the words `p` that are really there. */
  lemma StepOverWhole(g: Ring, c: Control, p: seq<Uint32>)
    requires g.Valid() && g.Position(c.stop) && |p| <= c.len < TWO_31
    requires StartsWhole(p) && p == g.Window(c.stop, c.len)[..|p|]
    ensures var w := g.Window(c.stop, c.len);
      Decode(w) == Take(TrueSize(p), HeaderWords(p[0]) + Args(p)) && WordsRead(w) == TrueSize(p)
    ensures var c', later := Command(g, c), p[TrueSize(p)..];
      && c'.stop == g.Skip(c.stop, TrueSize(p)) && c'.tally.taken == c.tally.taken + TrueSize(p)
      && c'.len == c.len - |p| + |later| + (if HeaderWords(p[0]) == 0 then 1 else 0)
      && |later| < |p| && |later| <= c'.len <= c.len
      && later == g.Window(c'.stop, c'.len)[..|later|]
  {
    hide Args, HeaderWords, EffectOf, Ring.Skip, Ring.Next, Ring.WordAt, Ring.Position, Ring.Valid;
    var w := g.Window(c.stop, c.len);
    assert w == p + w[|p|..];
    DecodesWhole(p, w[|p|..]);
    var c', later := Command(g, c), p[TrueSize(p)..];
    forall i | 0 <= i < |later|
      ensures later[i] == g.Window(c'.stop, c'.len)[i]
    {
      SkipAdds(g, c.stop, TrueSize(p), i);
      assert later[i] == w[TrueSize(p) + i];
    }
  }

  lemma {:induction false} TakesOnly(g: Ring, c: Control, loops: nat)
    requires g.Valid() && g.Position(c.stop)
    ensures Iterate(g, c, loops).tally.taken >= c.tally.taken
    decreases loops
  {
    hide Decode, EffectOf, Args, HeaderWords, Ring.Skip, Ring.Window;
    if c.len > 0 && loops > 0 && Decode(g.Window(c.stop, c.len)).Take? {
      TakesOnly(g, Command(g, c), loops - 1);
    }
  }

  // ----- a run -----

  /** The words, from the end of the whole commands of `p` on, that a loop believes in which believes in `c.len`. */
  function BelievedBy(g: Ring, c: Control, p: seq<Uint32>): (w: seq<Uint32>)
    requires g.Valid() && g.Position(c.stop) && |p| <= c.len
  {
    var q := Parse(p);
    g.Window(g.Skip(c.stop, |p| - |q.rest|), c.len - |p| + q.uncharged + |q.rest|)
  }

  /** How a loop ends that has `p` words before it. */
  ghost predicate Ends(g: Ring, c: Control, p: seq<Uint32>, loops: nat)
    requires g.Valid() && g.Position(c.stop) && |p| <= c.len
  {
    var c', q, w := Iterate(g, c, loops), Parse(p), BelievedBy(g, c, p);
    var goesOn := q.commands < loops && w != [];
    && (Reads(g, c, loops) > |p| <==> goesOn && WordsRead(w) > |q.rest|)
    && (c'.tally.taken - c.tally.taken > |p| <==> goesOn && Decode(w).Take?)
    && (q.commands < loops && (w == [] || Decode(w).Rewind?) ==> c'.stop == g.Skip(c.stop, |p| - |q.rest|))
  }

  lemma EndsAtOnce(g: Ring, c: Control, p: seq<Uint32>, loops: nat)
    requires g.Valid() && g.Position(c.stop) && |p| <= c.len < TWO_31 && p == g.Window(c.stop, c.len)[..|p|]
    requires loops == 0 || !StartsWhole(p)
    ensures Ends(g, c, p, loops)
  {
    hide Args, HeaderWords, EffectOf, Ring.Skip, Ring.Window, StartsWhole, Decode;
    SkipNothing(g, c.stop);
    if loops > 0 && c.len > 0 {
      var w := g.Window(c.stop, c.len);
      assert w == p + w[|p|..];
      if Decode(w).Take? {
        TakesMore(p, w[|p|..]);
        TakesOnly(g, Command(g, c), loops - 1);
      }
    }
  }

  lemma EndsLater(g: Ring, c: Control, p: seq<Uint32>, loops: nat)
    requires g.Valid() && g.Position(c.stop) && |p| <= c.len < TWO_31 && p == g.Window(c.stop, c.len)[..|p|]
    requires loops > 0 && StartsWhole(p)
    requires var c', later := Command(g, c), p[TrueSize(p)..];
      |later| <= c'.len && Ends(g, c', later, loops - 1)
    ensures Ends(g, c, p, loops)
  {
    hide Args, HeaderWords, EffectOf, Ring.Skip, Ring.Window, Decode, WordsRead, Command;
    StepOverWhole(g, c, p);
    var later := p[TrueSize(p)..];
    SkipAdds(g, c.stop, TrueSize(p), |later| - |Parse(later).rest|);
  }

  lemma {:induction false} RunEndsSo(g: Ring, c: Control, p: seq<Uint32>, loops: nat)
    requires g.Valid() && g.Position(c.stop) && |p| <= c.len < TWO_31 && p == g.Window(c.stop, c.len)[..|p|]
    ensures Ends(g, c, p, loops)
    decreases loops
  {
    hide Ends, Command, Ring.Window, Ring.Skip, Decode, WordsRead, Args, HeaderWords;
    if loops == 0 || !StartsWhole(p) {
      EndsAtOnce(g, c, p, loops);
    } else {
      StepOverWhole(g, c, p);
      RunEndsSo(g, Command(g, c), p[TrueSize(p)..], loops - 1);
      EndsLater(g, c, p, loops);
    }
  }

  function Believed(words: seq<Uint32>): (w: seq<Uint32>)
    requires WellFormed(words)
  {
    BelievedBy(RingOf(words), Start(words), Pending(words))
  }

  /**
   * Exactly when a run reads past NEXT, and exactly when it leaves STOP past NEXT, both told from the FIFO before the
   * run: it has to get to the end of the whole commands within its limit, to believe that more words follow, and to
   * read, or to take, more words there than are left. If it gets there and takes nothing more, STOP stays there.
   */
  lemma OverrunExactly(words: seq<Uint32>)
    requires WellFormed(words)
    ensures var q, w := Parse(Pending(words)), Believed(words);
      && (q.commands < MAX_LOOP && (w == [] || Decode(w).Rewind?) ==>
            AfterRun(words)[FIFO_STOP] == RingOf(words).Skip(words[FIFO_STOP], Length(words) - |q.rest|))
      && (RunReads(words) > Length(words) <==> q.commands < MAX_LOOP && w != [] && WordsRead(w) > |q.rest|)
      && (RunTakes(words) > Length(words) <==> q.commands < MAX_LOOP && w != [] && Decode(w).Take?)
  {
    hide Ring.Window, Ring.Skip, Length, Parse, WordsRead, Decode, Iterate, Reads, Ring.Next, BelievedBy;
    var p := Pending(words);
    assert p == p[..|p|];
    RunEndsSo(RingOf(words), Start(words), p, MAX_LOOP);
    if Length(words) == 0 {
      NothingRead(RingOf(words), Start(words));
    }
  }

  lemma NothingRead(g: Ring, c: Control)
    requires g.Valid() && g.Position(c.stop) && c.len == 0
    ensures Reads(g, c, MAX_LOOP) == 0 && Iterate(g, c, MAX_LOOP) == c && g.Skip(c.stop, 0) == c.stop
  {
  }

  /**
   * When nothing but whole commands is in the FIFO: the run reads past NEXT exactly if one of them was uncharged and
   * the limit is not reached, and it takes STOP past NEXT exactly if moreover the stale words from NEXT on look
   * complete. Otherwise it leaves STOP at NEXT.
   */
  lemma WholeStreamOverruns(words: seq<Uint32>)
    requires WellFormed(words) && Parse(Pending(words)).rest == []
    ensures var q := Parse(Pending(words));
      var stale := RingOf(words).Window(words[FIFO_NEXT], q.uncharged);
      && (RunReads(words) > Length(words) <==> q.commands < MAX_LOOP && q.uncharged > 0)
      && (RunTakes(words) > Length(words) <==> q.commands < MAX_LOOP && q.uncharged > 0 && Decode(stale).Take?)
      && (q.commands < MAX_LOOP && (q.uncharged == 0 || Decode(stale).Rewind?) ==>
            AfterRun(words)[FIFO_STOP] == words[FIFO_NEXT])
  {
    hide *;
    OverrunExactly(words);
    BelievesStale(words);
    var stale := Believed(words);
    if stale != [] {
      ReadsSomething(stale);
    }
  }

  lemma BelievesStale(words: seq<Uint32>)
    requires WellFormed(words) && Parse(Pending(words)).rest == []
    ensures RingOf(words).Valid()
    ensures RingOf(words).Position(words[FIFO_NEXT]) && RingOf(words).Position(words[FIFO_STOP])
    ensures RingOf(words).Skip(words[FIFO_STOP], Length(words)) == words[FIFO_NEXT]
    ensures Believed(words) == RingOf(words).Window(words[FIFO_NEXT], Parse(Pending(words)).uncharged)
  {
    hide Ring.Window, Ring.Skip, Ring.Next, Ring.Valid, Ring.Position, Parse, Length, Capacity;
    NextIsEnd(words);
  }

  lemma NextIsEnd(words: seq<Uint32>)
    requires WellFormed(words)
    ensures RingOf(words).Valid()
    ensures RingOf(words).Position(words[FIFO_NEXT]) && RingOf(words).Position(words[FIFO_STOP])
    ensures RingOf(words).Skip(words[FIFO_STOP], Length(words)) == words[FIFO_NEXT]
  {
    hide Ring.Skip, Ring.Next, Length;
    LengthIsDistance(words);
    SkipIsAdd(RingOf(words), words[FIFO_STOP], Length(words));
  }

  lemma LengthIsDistance(words: seq<Uint32>)
    requires WellFormed(words)
    ensures var ahead := words[FIFO_NEXT] as int - words[FIFO_STOP] as int;
      0 <= 4 * Length(words) == if ahead >= 0 then ahead else ahead + 4 * Capacity(words)
  {
    Fourths(words[FIFO_NEXT], words[FIFO_STOP], words[FIFO_MAX], words[FIFO_MIN]);
  }

  lemma ReadsSomething(p: seq<Uint32>)
    requires p != []
    ensures WordsRead(p) > 0
  {
  }

  lemma {:induction false} CleanParses(p: seq<Uint32>)
    requires Clean(p)
    ensures Parse(p).uncharged == 0 && Clean(Parse(p).rest) && !Complete(Parse(p).rest)
    decreases |p|
  {
    hide Args, HeaderWords;
    if StartsWhole(p) {
      CleanParses(p[TrueSize(p)..]);
    }
  }

  /** A stream of commands that charge all their words is never overrun: no word at or past NEXT is read or taken. */
  lemma CleanNeverOverruns(words: seq<Uint32>)
    requires WellFormed(words) && Clean(Pending(words))
    ensures RunReads(words) <= Length(words) && RunTakes(words) <= Length(words)
  {
    hide Ring.Skip, Ring.Next, Parse, WordsRead, Decode, Reads, AfterRun, RunReads, RunTakes, Clean, Complete, Length;
    var rest := Parse(Pending(words)).rest;
    CleanParses(Pending(words));
    OverrunExactly(words);
    BelievesRest(words);
    if rest != [] {
      DecodesComplete(rest);
      RewindReads(rest);
    }
  }

  lemma BelievesRest(words: seq<Uint32>)
    requires WellFormed(words) && Parse(Pending(words)).uncharged == 0
    ensures Believed(words) == Parse(Pending(words)).rest && |Believed(words)| < TWO_31
  {
    hide Ring.Skip, Ring.Next, Ring.WordAt, Parse;
    var p := Pending(words);
    ParseTail(p);
    WindowTail(RingOf(words), words[FIFO_STOP], Length(words), |p| - |Parse(p).rest|);
  }

  lemma {:induction false} ParseTail(p: seq<Uint32>)
    ensures Parse(p).rest == p[|p| - |Parse(p).rest|..]
    decreases |p|
  {
    if StartsWhole(p) {
      ParseTail(p[TrueSize(p)..]);
    }
  }

  lemma RewindReads(p: seq<Uint32>)
    requires 0 < |p| && Decode(p).Rewind?
    ensures WordsRead(p) <= |p|
  {
    hide Decode, HeaderWords;
  }

  // ----- a run can pass NEXT -----

  lemma InvalidCommandIsFree(p: seq<Uint32>)
    requires 0 < |p| < TWO_31 && p[0] == CMD_INVALID
    ensures Decode(p) == Take(1, 0)
  {
  }

  predicate AllZero(g: Ring)
    requires |g.words| == FIFO_WORDS
  {
    forall i :: g.min <= i < FIFO_SIZE ==> g.words[i / 4] == CMD_INVALID
  }

  lemma ZeroWordTaken(g: Ring, c: Control)
    requires g.Valid() && g.Position(c.stop) && g.min <= c.stop && 0 < c.len < TWO_31 && AllZero(g)
    ensures Decode(g.Window(c.stop, c.len)) == Take(1, 0)
    ensures var c' := Command(g, c);
      c'.len == c.len && c'.tally.taken == c.tally.taken + 1 && g.min <= c'.stop
  {
    hide Decode, EffectOf;
    var p := g.Window(c.stop, c.len);
    assert g.Skip(c.stop, 0) == c.stop && p[0] == g.words[c.stop / 4];
    InvalidCommandIsFree(p);
    assert g.Skip(c.stop, 1) == g.Next(c.stop);
  }

  /**
   * A ring of zero words holds only commands that charge nothing. Whatever length is left, even a single word, the
   * loop goes on to its command limit and takes one word each time.
   */
  lemma {:induction false} ZeroWordsOverrun(g: Ring, c: Control, loops: nat)
    requires g.Valid() && g.Position(c.stop) && g.min <= c.stop && 0 < c.len < TWO_31 && AllZero(g)
    ensures Iterate(g, c, loops).tally.taken == c.tally.taken + loops
    ensures Iterate(g, c, loops).len == c.len
    decreases loops
  {
    hide Decode, Command, AllZero, Ring.Valid, Ring.Position, Ring.Window, Ring.Next;
    if loops > 0 {
      ZeroWordTaken(g, c);
      ZeroWordsOverrun(g, Command(g, c), loops - 1);
    }
  }

  /** So one pending word can make a run take 1023 words: STOP passes NEXT. */
  lemma NeverPastNextFails(words: seq<Uint32>)
    requires |words| == FIFO_WORDS && Length(words) == 1 && words[FIFO_MIN] <= words[FIFO_STOP]
    requires AllZero(RingOf(words))
    ensures Run(words).tally.taken == MAX_LOOP > Length(words)
  {
    hide Iterate, Ring.Next, Ring.Window;
    ZeroWordsOverrun(RingOf(words), Start(words), MAX_LOOP);
  }

  /** For instance a FIFO in which the guest has only moved NEXT on by one word. */
  function ZeroRing(): (words: seq<Uint32>)
    ensures |words| == FIFO_WORDS
  {
    seq(FIFO_WORDS, i =>
      if i == FIFO_MIN || i == FIFO_STOP then 16
      else if i == FIFO_MAX then 16 + 10 * 1024
      else if i == FIFO_NEXT then 20
      else 0)
  }

  lemma ZeroRingOverruns()
    ensures WellFormed(ZeroRing()) && Length(ZeroRing()) == 1 && RunTakes(ZeroRing()) == 1023
  {
    hide Iterate, Ring.Next, Ring.Window;
    NeverPastNextFails(ZeroRing());
  }
}
