/**
 A reader that takes packets off the front of a buffer, refilled block by block from a file. `turn` says what
 one turn of the inner loop does with the bytes at hand, `endBlock` what is printed when a block is used up.
 */
module BlockLoop {
  import opened Sequences

  /** What reading one packet comes to. */
  datatype Effect<+S, +O, +E> = Effect(outputs: seq<O>, state: S, error: Option<E>)

  /** A turn either waits for more bytes or takes some. */
  datatype Step<+S, +O, +E> = NeedMore | Consume(length: nat, effect: Effect<S, O, E>)

  type Turn<!S, +O, +E> = (S, nat, seq<byte>) -> Step<S, O, E>

  /** How far a loop has come: what was printed, the state, the bytes not yet consumed, and any exception. */
  datatype Progress<+S, +O, +E> =
    Progress(outputs: seq<O>, state: S, at: nat, rest: seq<byte>, error: Option<E>)

  function After<S, O, E>(outputs: seq<O>, p: Progress<S, O, E>): Progress<S, O, E> {
    p.(outputs := outputs + p.outputs)
  }

  /** A turn without an exception takes at least one byte and no more than there are. */
  ghost predicate TakesBytes<S(!new), O(!new), E(!new)>(turn: Turn<S, O, E>) {
    forall st, at, bytes :: Advances(turn(st, at, bytes), |bytes|)
  }

  predicate Advances<S, O, E>(s: Step<S, O, E>, available: nat) {
    s.Consume? && s.effect.error.None? ==> 0 < s.length <= available
  }

  /** What a turn does once it takes something does not depend on the bytes behind. */
  ghost predicate IgnoresTail<S(!new), O(!new), E(!new)>(turn: Turn<S, O, E>) {
    forall st, at, a, b :: turn(st, at, a).Consume? ==> turn(st, at, a + b) == turn(st, at, a)
  }

  /** The inner loop. An exception ends it; the buffer is then of no further use. */
  function Drain<S, O, E>(turn: Turn<S, O, E>, st: S, at: nat, bytes: seq<byte>): Progress<S, O, E>
    decreases |bytes|
  {
    match turn(st, at, bytes)
    case NeedMore => Progress([], st, at, bytes, None)
    case Consume(n, e) =>
      if e.error.Some? || !(0 < n <= |bytes|) then Progress(e.outputs, e.state, at, [], e.error)
      else After(e.outputs, Drain(turn, e.state, at + n, bytes[n..]))
  }

  /** The outer loop over the blocks of the file. */
  function Feed<S, O, E>(turn: Turn<S, O, E>, endBlock: S -> seq<O>, st: S, at: nat, rest: seq<byte>,
                         blocks: seq<seq<byte>>): Progress<S, O, E>
    decreases |blocks|
  {
    if blocks == [] then Progress([], st, at, rest, None)
    else
      var p := Drain(turn, st, at, rest + blocks[0]);
      if p.error.Some? then p
      else After(p.outputs + endBlock(p.state), Feed(turn, endBlock, p.state, p.at, p.rest, blocks[1..]))
  }

  /** The file as the outer loop reads it. */
  function Blocks(file: seq<byte>, blockSize: nat): (r: seq<seq<byte>>)
    requires blockSize > 0
    ensures Flatten(r) == file
    decreases |file|
  {
    if file == [] then []
    else [Take(file, blockSize)] + Blocks(Drop(file, blockSize), blockSize)
  }

  /** Nothing can be done without more bytes. */
  predicate Waiting<S, O, E>(turn: Turn<S, O, E>, st: S, at: nat, rest: seq<byte>) {
    turn(st, at, rest).NeedMore?
  }

  lemma {:induction false} DrainWaits<S(!new), O(!new), E(!new)>(turn: Turn<S, O, E>, st: S, at: nat,
                                                                 bytes: seq<byte>)
    requires TakesBytes(turn)
    ensures var p := Drain(turn, st, at, bytes);
            p.error.None? ==> Waiting(turn, p.state, p.at, p.rest) && p.at + |p.rest| == at + |bytes|
    decreases |bytes|
  {
    var s := turn(st, at, bytes);
    assert Advances(s, |bytes|);
    if s.Consume? && s.effect.error.None? {
      DrainWaits(turn, s.effect.state, at + s.length, bytes[s.length..]);
    }
  }

  lemma DrainTakes<S, O, E>(turn: Turn<S, O, E>, st: S, at: nat, bytes: seq<byte>, n: nat, e: Effect<S, O, E>)
    requires turn(st, at, bytes) == Consume(n, e) && e.error.None? && 0 < n <= |bytes|
    ensures Drain(turn, st, at, bytes) == After(e.outputs, Drain(turn, e.state, at + n, bytes[n..]))
  {
  }

  lemma AfterNothing<S, O, E>(p: Progress<S, O, E>)
    ensures After([], p) == p
  {
  }

  lemma AfterTwice<S, O, E>(a: seq<O>, b: seq<O>, p: Progress<S, O, E>)
    ensures After(a, After(b, p)) == After(a + b, p)
  {
  }

  /** The inner loop in the middle: what was printed so far, and the turn to come. */
  lemma AfterWaits<S(!new), O(!new), E(!new)>(whole: Progress<S, O, E>, done: seq<O>, turn: Turn<S, O, E>,
                                              st: S, at: nat, bytes: seq<byte>)
    requires whole == After(done, Drain(turn, st, at, bytes)) && turn(st, at, bytes).NeedMore?
    ensures whole == Progress(done, st, at, bytes, None)
  {
  }

  lemma AfterFails<S(!new), O(!new), E(!new)>(whole: Progress<S, O, E>, done: seq<O>, turn: Turn<S, O, E>,
                                              st: S, at: nat, bytes: seq<byte>, s: Step<S, O, E>)
    requires whole == After(done, Drain(turn, st, at, bytes))
    requires turn(st, at, bytes) == s && s.Consume? && s.effect.error.Some?
    ensures whole == Progress(done + s.effect.outputs, s.effect.state, at, [], s.effect.error)
  {
  }

  lemma AfterTurn<S(!new), O(!new), E(!new)>(whole: Progress<S, O, E>, done: seq<O>, turn: Turn<S, O, E>,
                                             st: S, at: nat, bytes: seq<byte>, s: Step<S, O, E>,
                                             next: S, further: nat, rest: seq<byte>)
    requires whole == After(done, Drain(turn, st, at, bytes))
    requires turn(st, at, bytes) == s && s.Consume? && s.effect.error.None?
    requires 0 < s.length <= |bytes|
    requires next == s.effect.state && further == at + s.length && rest == bytes[s.length..]
    ensures whole == After(done + s.effect.outputs, Drain(turn, next, further, rest))
  {
  }

  /** Stopping after `a` and going on with `b` behind what was left comes to the same as `a + b` at once. */
  ghost predicate Resumes<S(!new), O(!new), E(!new)>(turn: Turn<S, O, E>, st: S, at: nat, a: seq<byte>, b: seq<byte>) {
    var p := Drain(turn, st, at, a);
    Drain(turn, st, at, a + b)
    == if p.error.Some? then p else After(p.outputs, Drain(turn, p.state, p.at, p.rest + b))
  }

  lemma ResumesOneEarlier<S(!new), O(!new), E(!new)>(turn: Turn<S, O, E>, st: S, at: nat, a: seq<byte>,
                                                     b: seq<byte>, s: Step<S, O, E>)
    requires turn(st, at, a) == s == turn(st, at, a + b)
    requires s.Consume? && s.effect.error.None? && 0 < s.length <= |a|
    requires Resumes(turn, s.effect.state, at + s.length, a[s.length..], b)
    ensures Resumes(turn, st, at, a, b)
  {
    var n, e := s.length, s.effect;
    DrainTakes(turn, st, at, a, n, e);
    DrainTakes(turn, st, at, a + b, n, e);
    assert (a + b)[n..] == a[n..] + b;
    var p := Drain(turn, e.state, at + n, a[n..]);
    AfterTwice(e.outputs, p.outputs, Drain(turn, p.state, p.at, p.rest + b));
  }

  /** The loop can stop when it runs out of bytes and go on with what it left, exceptions included. */
  lemma {:induction false} DrainResumes<S(!new), O(!new), E(!new)>(turn: Turn<S, O, E>, st: S, at: nat,
                                                                   a: seq<byte>, b: seq<byte>)
    requires TakesBytes(turn) && IgnoresTail(turn)
    ensures Resumes(turn, st, at, a, b)
    decreases |a|
  {
    var s := turn(st, at, a);
    assert Advances(s, |a|);
    if s.NeedMore? {
      AfterNothing(Drain(turn, st, at, a + b));
    } else {
      assert turn(st, at, a + b) == s;
      if s.effect.error.None? {
        DrainResumes(turn, s.effect.state, at + s.length, a[s.length..], b);
        ResumesOneEarlier(turn, st, at, a, b, s);
      }
    }
  }

  /** The outer loop in the middle. */
  lemma FeedFails<S(!new), O(!new), E(!new)>(whole: Progress<S, O, E>, done: seq<O>, turn: Turn<S, O, E>,
                                             endBlock: S -> seq<O>, st: S, at: nat, rest: seq<byte>,
                                             blocks: seq<seq<byte>>, p: Progress<S, O, E>)
    requires whole == After(done, Feed(turn, endBlock, st, at, rest, blocks))
    requires blocks != [] && p == Drain(turn, st, at, rest + blocks[0]) && p.error.Some?
    ensures whole == After(done, p)
  {
  }

  lemma FeedGoesOn<S(!new), O(!new), E(!new)>(whole: Progress<S, O, E>, done: seq<O>, turn: Turn<S, O, E>,
                                              endBlock: S -> seq<O>, st: S, at: nat, rest: seq<byte>,
                                              blocks: seq<seq<byte>>, p: Progress<S, O, E>,
                                              next: S, further: nat, left: seq<byte>, later: seq<seq<byte>>)
    requires whole == After(done, Feed(turn, endBlock, st, at, rest, blocks))
    requires blocks != [] && p == Drain(turn, st, at, rest + blocks[0]) && p.error.None?
    requires next == p.state && further == p.at && left == p.rest && later == blocks[1..]
    ensures whole == After(done + (p.outputs + endBlock(p.state)), Feed(turn, endBlock, next, further, left, later))
  {
  }

  /** Two runs end alike but for what they printed. */
  predicate SameEnd<S(==), O, E(==)>(p: Progress<S, O, E>, q: Progress<S, O, E>) {
    p.state == q.state && p.at == q.at && p.rest == q.rest && p.error == q.error
  }

  ghost predicate PrintsNothing<S(!new), O>(endBlock: S -> seq<O>) {
    forall st :: endBlock(st) == []
  }

  /**
   Block independence: however a file is cut into blocks, the outer loop ends in the same state, at the same
   place and with the same exception as the inner loop on the whole file, and unless blocks print something
   when they end it prints the same.
   */
  lemma {:induction false} FeedIsDrain<S(!new), O(!new), E(!new)>(turn: Turn<S, O, E>, endBlock: S -> seq<O>,
                                                                  st: S, at: nat, rest: seq<byte>,
                                                                  blocks: seq<seq<byte>>)
    requires TakesBytes(turn) && IgnoresTail(turn) && Waiting(turn, st, at, rest)
    ensures SameEnd(Feed(turn, endBlock, st, at, rest, blocks), Drain(turn, st, at, rest + Flatten(blocks)))
    ensures PrintsNothing(endBlock) ==>
              Feed(turn, endBlock, st, at, rest, blocks) == Drain(turn, st, at, rest + Flatten(blocks))
    decreases |blocks|
  {
    if blocks == [] {
      assert rest + [] == rest;
    } else {
      var tail := Flatten(blocks[1..]);
      ConcatAssociative(rest, blocks[0], tail);
      DrainResumes(turn, st, at, rest + blocks[0], tail);
      DrainWaits(turn, st, at, rest + blocks[0]);
      var p := Drain(turn, st, at, rest + blocks[0]);
      if p.error.None? {
        FeedIsDrain(turn, endBlock, p.state, p.at, p.rest, blocks[1..]);
        if PrintsNothing(endBlock) {
          assert p.outputs + endBlock(p.state) == p.outputs;
        }
      }
    }
  }

  /** Printing at the end of blocks only adds to what is printed: nothing is lost, changed or reordered. */
  lemma {:induction false} FeedKeepsOutputs<S(!new), O(!new), E(!new)>(turn: Turn<S, O, E>, endBlock: S -> seq<O>,
                                                                           st: S, at: nat, rest: seq<byte>,
                                                                           blocks: seq<seq<byte>>)
    requires TakesBytes(turn) && IgnoresTail(turn) && Waiting(turn, st, at, rest)
    ensures Subsequence(Drain(turn, st, at, rest + Flatten(blocks)).outputs,
                        Feed(turn, endBlock, st, at, rest, blocks).outputs)
    decreases |blocks|
  {
    if blocks == [] {
      assert rest + [] == rest;
    } else {
      var tail := Flatten(blocks[1..]);
      ConcatAssociative(rest, blocks[0], tail);
      DrainResumes(turn, st, at, rest + blocks[0], tail);
      DrainWaits(turn, st, at, rest + blocks[0]);
      var p := Drain(turn, st, at, rest + blocks[0]);
      SubsequenceSelf(p.outputs);
      if p.error.None? {
        FeedKeepsOutputs(turn, endBlock, p.state, p.at, p.rest, blocks[1..]);
        var once := Drain(turn, p.state, p.at, p.rest + tail).outputs;
        var later := Feed(turn, endBlock, p.state, p.at, p.rest, blocks[1..]).outputs;
        SubsequenceSkips(once, endBlock(p.state), later);
        SubsequenceConcat(p.outputs, p.outputs, once, endBlock(p.state) + later);
        ConcatAssociative(p.outputs, endBlock(p.state), later);
      }
    }
  }

  // ---------- What a run keeps ----------

  /** Whatever a turn takes, the state keeps this property. */
  ghost predicate Keeps<S(!new), O(!new), E(!new)>(turn: Turn<S, O, E>, kept: S -> bool) {
    forall st, at, bytes :: kept(st) && turn(st, at, bytes).Consume? ==> kept(turn(st, at, bytes).effect.state)
  }

  lemma {:induction false} DrainKeeps<S(!new), O(!new), E(!new)>(turn: Turn<S, O, E>, kept: S -> bool, st: S,
                                                                 at: nat, bytes: seq<byte>)
    requires Keeps(turn, kept) && kept(st)
    ensures kept(Drain(turn, st, at, bytes).state)
    decreases |bytes|
  {
    var s := turn(st, at, bytes);
    if s.Consume? && s.effect.error.None? && 0 < s.length <= |bytes| {
      DrainKeeps(turn, kept, s.effect.state, at + s.length, bytes[s.length..]);
    }
  }

  lemma {:induction false} FeedKeeps<S(!new), O(!new), E(!new)>(turn: Turn<S, O, E>, endBlock: S -> seq<O>,
                                                                kept: S -> bool, st: S, at: nat, rest: seq<byte>,
                                                                blocks: seq<seq<byte>>)
    requires Keeps(turn, kept) && kept(st)
    ensures kept(Feed(turn, endBlock, st, at, rest, blocks).state)
    decreases |blocks|
  {
    if blocks != [] {
      DrainKeeps(turn, kept, st, at, rest + blocks[0]);
      var p := Drain(turn, st, at, rest + blocks[0]);
      if p.error.None? {
        FeedKeeps(turn, endBlock, kept, p.state, p.at, p.rest, blocks[1..]);
      }
    }
  }

  // ---------- What the blocks print ----------

  /**
   The outer loop by what the inner loop makes of the file up to the end of each block: what the block adds to
   the output, then what its end prints.
   */
  function Interleaved<S, O, E>(turn: Turn<S, O, E>, endBlock: S -> seq<O>, st: S, at: nat, done: seq<byte>,
                                blocks: seq<seq<byte>>): seq<O>
    decreases |blocks|
  {
    if blocks == [] then []
    else
      var before, now := Drain(turn, st, at, done), Drain(turn, st, at, done + blocks[0]);
      Drop(now.outputs, |before.outputs|) + endBlock(now.state)
      + Interleaved(turn, endBlock, st, at, done + blocks[0], blocks[1..])
  }

  /** Going on from `p`, one more block prints what the inner loop adds to what it had printed. */
  lemma BlockAdds<S(!new), O(!new), E(!new)>(turn: Turn<S, O, E>, st: S, at: nat, done: seq<byte>,
                                             block: seq<byte>, p: Progress<S, O, E>, now: Progress<S, O, E>)
    requires TakesBytes(turn) && IgnoresTail(turn)
    requires p == Drain(turn, st, at, done) && now == Drain(turn, st, at, done + block) && now.error.None?
    ensures p.error.None?
    ensures Drain(turn, p.state, p.at, p.rest + block) == now.(outputs := Drop(now.outputs, |p.outputs|))
  {
    DrainResumes(turn, st, at, done, block);
    if p.error.None? {
      var q := Drain(turn, p.state, p.at, p.rest + block);
      assert Drop(p.outputs + q.outputs, |p.outputs|) == q.outputs;
    }
  }

  /** Without an exception the outer loop prints just that. */
  lemma {:induction false} FeedIsInterleaved<S(!new), O(!new), E(!new)>(turn: Turn<S, O, E>, endBlock: S -> seq<O>,
                                                                        st: S, at: nat, done: seq<byte>,
                                                                        blocks: seq<seq<byte>>,
                                                                        p: Progress<S, O, E>)
    requires TakesBytes(turn) && IgnoresTail(turn)
    requires Drain(turn, st, at, done + Flatten(blocks)).error.None?
    requires p == Drain(turn, st, at, done)
    ensures Feed(turn, endBlock, p.state, p.at, p.rest, blocks).outputs
         == Interleaved(turn, endBlock, st, at, done, blocks)
    decreases |blocks|
  {
    if blocks != [] {
      var later, more := Flatten(blocks[1..]), done + blocks[0];
      var now := Drain(turn, st, at, more);
      ConcatAssociative(done, blocks[0], later);
      BlockAdds(turn, st, at, more, later, now, Drain(turn, st, at, more + later));
      BlockAdds(turn, st, at, done, blocks[0], p, now);
      FeedIsInterleaved(turn, endBlock, st, at, more, blocks[1..], now);
    }
  }
}
