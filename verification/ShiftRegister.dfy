/**
 Linear shift registers, as an algebra: words that can be added (exclusive or), shifted up by one place,
 and stepped. From the laws alone it follows that feeding such a register tells apart any two bit
 strings that differ only within as many consecutive bits as the register has places.
 */
module ShiftRegister {

  /** `fits(w, n)` says that w has no bit at place n or above; the register has `width` places. */
  datatype Register<!W> = Register(
    width: nat,
    zero: W,
    one: W,
    add: (W, W) -> W,
    up: W -> W,
    step: W -> W,
    fits: (W, nat) -> bool)
  {
    function Bit(b: bool): W {
      if b then one else zero
    }

    /** Word w with everything one place up and bit b in the lowest place. */
    function Push(w: W, b: bool): W {
      add(up(w), Bit(b))
    }

    ghost predicate Addition(x: W, y: W, z: W) {
      && add(x, y) == add(y, x)
      && add(add(x, y), z) == add(x, add(y, z))
      && add(x, x) == zero && add(x, zero) == x
    }

    ghost predicate Pushing(v: W, w: W, a: bool, b: bool, n: nat) {
      n < width && fits(v, n) && fits(w, n) ==>
        fits(Push(v, a), n + 1) && (Push(v, a) == Push(w, b) ==> v == w && a == b)
    }

    /** Stepping is linear, loses nothing, and only moves down what has not yet reached the lowest place. */
    ghost predicate Stepping(x: W, y: W, n: nat) {
      && step(add(x, y)) == add(step(x), step(y))
      && (step(x) == step(y) ==> x == y)
      && (n < width && fits(x, n) ==> step(up(x)) == x)
    }
  }

  ghost predicate Lawful<W(!new)>(r: Register<W>) {
    && r.fits(r.zero, 0)
    && (forall x, y, z :: r.Addition(x, y, z))
    && (forall v, w, a, b, n :: r.Pushing(v, w, a, b, n))
    && (forall x, y, n :: r.Stepping(x, y, n))
  }

  function Steps<W>(r: Register<W>, state: W, n: nat): W
    decreases n
  {
    if n == 0 then state else Steps(r, r.step(state), n - 1)
  }

  /** Adds each bit to the lowest place of the register and steps it. */
  function Feed<W>(r: Register<W>, bits: seq<bool>, state: W): W
    decreases bits
  {
    if bits == [] then state else Feed(r, bits[1..], r.step(r.add(state, r.Bit(bits[0]))))
  }

  /** Bits as a word, the first one lowest. */
  function Packed<W>(r: Register<W>, bits: seq<bool>): W
    decreases bits
  {
    if bits == [] then r.zero else r.Push(Packed(r, bits[1..]), bits[0])
  }

  lemma {:induction false} PackedFits<W(!new)>(r: Register<W>, bits: seq<bool>)
    requires Lawful(r) && |bits| <= r.width
    ensures r.fits(Packed(r, bits), |bits|)
    decreases bits
  {
    if bits != [] {
      var w := Packed(r, bits[1..]);
      PackedFits(r, bits[1..]);
      assert r.Pushing(w, w, bits[0], bits[0], |bits| - 1);
    }
  }

  lemma {:induction false} PackedInjective<W(!new)>(r: Register<W>, a: seq<bool>, b: seq<bool>)
    requires Lawful(r) && |a| == |b| <= r.width && Packed(r, a) == Packed(r, b)
    ensures a == b
    decreases a
  {
    if a != [] {
      PackedFits(r, a[1..]);
      PackedFits(r, b[1..]);
      assert r.Pushing(Packed(r, a[1..]), Packed(r, b[1..]), a[0], b[0], |a| - 1);
      PackedInjective(r, a[1..], b[1..]);
      assert a == [a[0]] + a[1..] && b == [b[0]] + b[1..];
    }
  }

  lemma {:induction false} StepsLinear<W(!new)>(r: Register<W>, x: W, y: W, n: nat)
    requires Lawful(r)
    ensures Steps(r, r.add(x, y), n) == r.add(Steps(r, x, n), Steps(r, y, n))
    decreases n
  {
    if n > 0 {
      assert r.Stepping(x, y, 0);
      StepsLinear(r, r.step(x), r.step(y), n - 1);
    }
  }

  lemma {:induction false} StepsInjective<W(!new)>(r: Register<W>, x: W, y: W, n: nat)
    requires Lawful(r) && Steps(r, x, n) == Steps(r, y, n)
    ensures x == y
    decreases n
  {
    if n > 0 {
      StepsInjective(r, r.step(x), r.step(y), n - 1);
      assert r.Stepping(x, y, 0);
    }
  }

  lemma AddCancels<W(!new)>(r: Register<W>, s: W, x: W, y: W)
    requires Lawful(r) && r.add(s, x) == r.add(s, y)
    ensures x == y
  {
    assert r.Addition(s, s, x) && r.Addition(s, s, y);
    assert r.Addition(x, r.zero, x) && r.Addition(y, r.zero, y);
  }

  /** Bits that are still to come are the same before the step as after it, one place lower. */
  lemma StepDefers<W(!new)>(r: Register<W>, x: W, w: W, n: nat)
    requires Lawful(r) && n < r.width && r.fits(w, n)
    ensures r.step(r.add(x, r.up(w))) == r.add(r.step(x), w)
  {
    assert r.Stepping(x, r.up(w), 0);
    assert r.Stepping(w, w, n);
  }

  /** A stretch of bits no longer than the register acts as if all of it were added to the state at once. */
  lemma {:induction false} FeedIsSteps<W(!new)>(r: Register<W>, bits: seq<bool>, state: W)
    requires Lawful(r) && |bits| <= r.width
    ensures Feed(r, bits, state) == Steps(r, r.add(state, Packed(r, bits)), |bits|)
    decreases bits
  {
    if bits == [] {
      assert r.Addition(state, r.zero, r.zero);
    } else {
      var w, b := Packed(r, bits[1..]), r.Bit(bits[0]);
      FeedIsSteps(r, bits[1..], r.step(r.add(state, b)));
      PackedFits(r, bits[1..]);
      StepDefers(r, r.add(state, b), w, |bits| - 1);
      assert r.Addition(state, b, r.up(w)) && r.Addition(b, r.up(w), b);
    }
  }

  lemma {:induction false} FeedConcat<W(!new)>(r: Register<W>, a: seq<bool>, b: seq<bool>, state: W)
    ensures Feed(r, a + b, state) == Feed(r, b, Feed(r, a, state))
    decreases a
  {
    if a == [] {
      assert a + b == b;
    } else {
      assert (a + b)[1..] == a[1..] + b;
      FeedConcat(r, a[1..], b, r.step(r.add(state, r.Bit(a[0]))));
    }
  }

  /** Reading the same bits keeps different states different. */
  lemma {:induction false} FeedInjective<W(!new)>(r: Register<W>, bits: seq<bool>, s: W, t: W)
    requires Lawful(r) && Feed(r, bits, s) == Feed(r, bits, t)
    ensures s == t
    decreases bits
  {
    if bits != [] {
      var b := r.Bit(bits[0]);
      FeedInjective(r, bits[1..], r.step(r.add(s, b)), r.step(r.add(t, b)));
      assert r.Stepping(r.add(s, b), r.add(t, b), 0);
      assert r.Addition(s, b, b) && r.Addition(t, b, b);
      AddCancels(r, b, s, t);
    }
  }

  /** From the same state, different strings of one length, within the register's width, lead apart. */
  lemma ShortFeedInjective<W(!new)>(r: Register<W>, x: seq<bool>, y: seq<bool>, state: W)
    requires Lawful(r) && |x| == |y| <= r.width
    requires Feed(r, x, state) == Feed(r, y, state)
    ensures x == y
  {
    FeedIsSteps(r, x, state);
    FeedIsSteps(r, y, state);
    StepsInjective(r, r.add(state, Packed(r, x)), r.add(state, Packed(r, y)), |x|);
    AddCancels(r, state, Packed(r, x), Packed(r, y));
    PackedInjective(r, x, y);
  }

  /** Any error confined to `width` consecutive bits changes the final state. */
  lemma BurstDetected<W(!new)>(r: Register<W>, before: seq<bool>, x: seq<bool>, y: seq<bool>, after: seq<bool>,
                               state: W)
    requires Lawful(r) && |x| == |y| <= r.width && x != y
    ensures Feed(r, before + x + after, state) != Feed(r, before + y + after, state)
  {
    var s := Feed(r, before, state);
    FeedConcat(r, before + x, after, state);
    FeedConcat(r, before, x, state);
    FeedConcat(r, before + y, after, state);
    FeedConcat(r, before, y, state);
    if Feed(r, before + x + after, state) == Feed(r, before + y + after, state) {
      FeedInjective(r, after, Feed(r, x, s), Feed(r, y, s));
      ShortFeedInjective(r, x, y, s);
    }
  }

  // ---------- one bit more than the width ----------

  /** The places where two bit strings differ. */
  function Difference(x: seq<bool>, y: seq<bool>): (d: seq<bool>)
    requires |x| == |y|
    ensures |d| == |x|
    ensures forall i :: 0 <= i < |d| ==> d[i] == (x[i] != y[i])
    decreases x
  {
    if x == [] then [] else [x[0] != y[0]] + Difference(x[1..], y[1..])
  }

  function NoBits(n: nat): (d: seq<bool>)
    ensures |d| == n
  {
    seq(n, _ => false)
  }

  lemma AddPairwise<W(!new)>(r: Register<W>, s: W, t: W, a: W, b: W)
    requires Lawful(r)
    ensures r.add(r.add(s, t), r.add(a, b)) == r.add(r.add(s, a), r.add(t, b))
  {
    assert r.Addition(s, t, r.add(a, b)) && r.Addition(t, a, b) && r.Addition(a, t, b);
    assert r.Addition(s, a, r.add(t, b));
  }

  lemma BitOfDifference<W(!new)>(r: Register<W>, a: bool, b: bool)
    requires Lawful(r)
    ensures r.Bit(a != b) == r.add(r.Bit(a), r.Bit(b))
  {
    assert r.Addition(r.one, r.zero, r.zero) && r.Addition(r.zero, r.zero, r.zero);
  }

  /** Feeding is linear: differences in bits and states become the difference of the results. */
  lemma {:induction false} FeedDifference<W(!new)>(r: Register<W>, x: seq<bool>, y: seq<bool>, s: W, t: W)
    requires Lawful(r) && |x| == |y|
    ensures Feed(r, Difference(x, y), r.add(s, t)) == r.add(Feed(r, x, s), Feed(r, y, t))
    decreases x
  {
    if x != [] {
      var a, b := r.Bit(x[0]), r.Bit(y[0]);
      BitOfDifference(r, x[0], y[0]);
      AddPairwise(r, s, t, a, b);
      assert r.Stepping(r.add(s, a), r.add(t, b), 0);
      FeedDifference(r, x[1..], y[1..], r.step(r.add(s, a)), r.step(r.add(t, b)));
      assert Difference(x, y)[1..] == Difference(x[1..], y[1..]);
    }
  }

  lemma {:induction false} FeedNothing<W(!new)>(r: Register<W>, n: nat)
    requires Lawful(r)
    ensures Feed(r, NoBits(n), r.zero) == r.zero
  {
    if n > 0 {
      FeedNothing(r, n - 1);
      assert NoBits(n)[1..] == NoBits(n - 1);
      assert r.Addition(r.zero, r.zero, r.zero) && r.Stepping(r.zero, r.zero, 0);
      assert r.Addition(r.step(r.zero), r.zero, r.zero);
    }
  }

  /** Two strings lead to the same state exactly if their difference leads from zero to zero. */
  lemma SameIfNoDifference<W(!new)>(r: Register<W>, x: seq<bool>, y: seq<bool>, s: W)
    requires Lawful(r) && |x| == |y|
    ensures Feed(r, x, s) == Feed(r, y, s) <==> Feed(r, Difference(x, y), r.zero) == r.zero
  {
    var u, v := Feed(r, x, s), Feed(r, y, s);
    FeedDifference(r, x, y, s, s);
    assert r.Addition(s, s, s) && r.Addition(u, u, u);
    if r.add(u, v) == r.zero {
      AddCancels(r, u, u, v);
    }
  }

  /** A string of one bit more than the width that leads from zero to zero, and begins with a bit. */
  ghost predicate Generator<W>(r: Register<W>, g: seq<bool>) {
    |g| == r.width + 1 && g[0] && Feed(r, g, r.zero) == r.zero
  }

  /** Besides nothing, the generator is the only string of its length that leads from zero to zero. */
  lemma GeneratorIsUnique<W(!new)>(r: Register<W>, g: seq<bool>, d: seq<bool>)
    requires Lawful(r) && Generator(r, g) && |d| == |g|
    ensures Feed(r, d, r.zero) == r.zero <==> d == g || d == NoBits(|g|)
  {
    var none := NoBits(|g|);
    FeedNothing(r, |g|);
    if Feed(r, d, r.zero) == r.zero {
      var other := if d[0] then g else none;
      ShortFeedInjective(r, d[1..], other[1..], r.step(r.add(r.zero, r.Bit(d[0]))));
      assert d == [d[0]] + d[1..] && other == [other[0]] + other[1..];
    }
  }

  /** So an error within one bit more than the width goes unnoticed exactly if it is the generator. */
  lemma WiderBurst<W(!new)>(r: Register<W>, g: seq<bool>, before: seq<bool>, x: seq<bool>, y: seq<bool>,
                            after: seq<bool>, state: W)
    requires Lawful(r) && Generator(r, g) && |x| == |y| == |g|
    ensures Feed(r, before + x + after, state) == Feed(r, before + y + after, state)
       <==> x == y || Difference(x, y) == g
  {
    var s := Feed(r, before, state);
    FeedConcat(r, before + x, after, state);
    FeedConcat(r, before, x, state);
    FeedConcat(r, before + y, after, state);
    FeedConcat(r, before, y, state);
    if Feed(r, before + x + after, state) == Feed(r, before + y + after, state) {
      FeedInjective(r, after, Feed(r, x, s), Feed(r, y, s));
    }
    SameIfNoDifference(r, x, y, s);
    GeneratorIsUnique(r, g, Difference(x, y));
    NoDifference(x, y);
  }

  lemma NoDifference(x: seq<bool>, y: seq<bool>)
    requires |x| == |y|
    ensures Difference(x, y) == NoBits(|x|) <==> x == y
  {
    if Difference(x, y) == NoBits(|x|) {
      assert forall i :: 0 <= i < |x| ==> !Difference(x, y)[i];
    }
  }
}
