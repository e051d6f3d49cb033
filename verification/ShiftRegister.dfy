/**
 A linear shift register over words `W` that absorbs bytes `B`, and what a check word computed
 by it detects. The register is given by its operations; everything here follows from the
 laws in `Lawful`.
 */
module ShiftRegister {
  /**
   `step` shifts once, `xor` mixes words, `wide` embeds a byte, `pack`/`unpack` convert a word
   and its four bytes, `not` complements and `init` is the start state.
   */
  datatype Register<!W(!new), !B(!new)> = Register(
    step: W -> W,
    xor: (W, W) -> W,
    wide: B -> W,
    pack: seq<B> -> W,
    unpack: W -> seq<B>,
    not: W -> W,
    init: W)
  {
    function Feed(s: W, bytes: seq<B>): W
      decreases |bytes|
    {
      if bytes == [] then s else Feed(Iterate(step, xor(s, wide(bytes[0])), 8), bytes[1..])
    }

    function Checksum(bytes: seq<B>): W {
      not(Feed(init, bytes))
    }

    /** `bytes` followed by their checksum. */
    function Sealed(bytes: seq<B>): seq<B> {
      bytes + unpack(Checksum(bytes))
    }

    ghost predicate Lawful() {
      && Injective(step)
      && (forall a, b, c {:trigger xor(a, c), xor(b, c)} :: xor(a, c) == xor(b, c) ==> a == b)
      && (forall a, b, c {:trigger xor(c, a), xor(c, b)} :: xor(c, a) == xor(c, b) ==> a == b)
      && (forall s, bytes :: |bytes| == 4 ==> Feed(s, bytes) == Iterate(step, xor(s, pack(bytes)), 32))
      && (forall bytes :: |bytes| == 4 ==> unpack(pack(bytes)) == bytes)
      && (forall w :: |unpack(w)| == 4 && pack(unpack(w)) == w)
      && (forall s :: xor(s, not(s)) == init)
    }

    lemma {:induction false} FeedConcat(s: W, a: seq<B>, b: seq<B>)
      ensures Feed(s, a + b) == Feed(Feed(s, a), b)
      decreases |a|
    {
      if a == [] {
        assert a + b == b;
      } else {
        assert (a + b)[1..] == a[1..] + b;
        FeedConcat(Iterate(step, xor(s, wide(a[0])), 8), a[1..], b);
      }
    }

    /** Each byte's step is a bijection on states, so equal tails keep different states apart. */
    lemma {:induction false} FeedInjective(s: W, t: W, bytes: seq<B>)
      requires Lawful() && Feed(s, bytes) == Feed(t, bytes)
      ensures s == t
      decreases |bytes|
    {
      if bytes != [] {
        var a, b := xor(s, wide(bytes[0])), xor(t, wide(bytes[0]));
        FeedInjective(Iterate(step, a, 8), Iterate(step, b, 8), bytes[1..]);
        IterateInjective(step, a, b, 8);
      }
    }

    lemma WindowOfFour(s: W, u: seq<B>, v: seq<B>)
      requires Lawful() && |u| == |v| == 4 && Feed(s, u) == Feed(s, v)
      ensures u == v
    {
      IterateInjective(step, xor(s, pack(u)), xor(s, pack(v)), 32);
      assert unpack(pack(u)) == u && unpack(pack(v)) == v;
    }

    /** Messages that differ only within four consecutive bytes reach different states. */
    lemma BurstChangesState(s: W, before: seq<B>, u: seq<B>, v: seq<B>, after: seq<B>)
      requires Lawful() && |u| == |v| <= 4
      requires Feed(s, before + u + after) == Feed(s, before + v + after)
      ensures u == v
    {
      var t := Feed(s, before);
      FeedConcat(s, before + u, after);
      FeedConcat(s, before, u);
      FeedConcat(s, before + v, after);
      FeedConcat(s, before, v);
      FeedInjective(Feed(t, u), Feed(t, v), after);
      if u != [] {
        var pad := seq(4 - |u|, _ => u[0]);
        FeedConcat(t, u, pad);
        FeedConcat(t, v, pad);
        WindowOfFour(t, u + pad, v + pad);
        assert (u + pad)[..|u|] == u && (v + pad)[..|v|] == v;
      }
    }

    /** A message and its checksum leave one fixed state, and only its checksum does. */
    lemma ResidueOfSealed(bytes: seq<B>, check: seq<B>)
      requires Lawful() && |check| == 4
      ensures Feed(init, bytes + check) == Iterate(step, init, 32) <==> pack(check) == Checksum(bytes)
    {
      var s := Feed(init, bytes);
      FeedConcat(init, bytes, check);
      assert xor(s, not(s)) == init;
      if Feed(init, bytes + check) == Iterate(step, init, 32) {
        IterateInjective(step, xor(s, pack(check)), init, 32);
      }
    }

    /** No sealed message stays sealed when up to four consecutive bytes of it, checksum
        included, change. */
    lemma BurstDetected(bytes: seq<B>, before: seq<B>, u: seq<B>, v: seq<B>, after: seq<B>)
      requires Lawful() && |u| == |v| <= 4 && u != v
      requires Sealed(bytes) == before + u + after
      ensures var damaged := before + v + after;
              |damaged| == |bytes| + 4
              && pack(damaged[|bytes|..]) != Checksum(damaged[..|bytes|])
    {
      var damaged := before + v + after;
      assert |damaged| == |Sealed(bytes)|;
      ResidueOfSealed(bytes, unpack(Checksum(bytes)));
      ResidueOfSealed(damaged[..|bytes|], damaged[|bytes|..]);
      assert damaged[..|bytes|] + damaged[|bytes|..] == damaged;
      if pack(damaged[|bytes|..]) == Checksum(damaged[..|bytes|]) {
        BurstChangesState(init, before, u, v, after);
      }
    }
  }

  function Iterate<W>(step: W -> W, s: W, n: nat): W
    decreases n, s
  {
    if n == 0 then s else Iterate(step, step(s), n - 1)
  }

  ghost predicate Injective<W(!new)>(step: W -> W) {
    forall a, b :: step(a) == step(b) ==> a == b
  }

  ghost predicate Linear<W(!new)>(step: W -> W, xor: (W, W) -> W) {
    forall a, b :: step(xor(a, b)) == xor(step(a), step(b))
  }

  ghost predicate Associative<W(!new)>(xor: (W, W) -> W) {
    forall a, b, c {:trigger xor(xor(a, b), c)} :: xor(xor(a, b), c) == xor(a, xor(b, c))
  }

  lemma {:induction false} IterateInjective<W(!new)>(step: W -> W, a: W, b: W, n: nat)
    requires Injective(step) && Iterate(step, a, n) == Iterate(step, b, n)
    ensures a == b
    decreases n
  {
    if n > 0 { IterateInjective(step, step(a), step(b), n - 1); }
  }

  lemma {:induction false} IterateLinear<W(!new)>(step: W -> W, xor: (W, W) -> W, a: W, b: W, n: nat)
    requires Linear(step, xor)
    ensures Iterate(step, xor(a, b), n) == xor(Iterate(step, a, n), Iterate(step, b, n))
    decreases n
  {
    if n > 0 { IterateLinear(step, xor, step(a), step(b), n - 1); }
  }

  lemma {:induction false} IterateTwice<W>(step: W -> W, s: W, n: nat, m: nat)
    ensures Iterate(step, Iterate(step, s, n), m) == Iterate(step, s, n + m)
    decreases n
  {
    if n > 0 { IterateTwice(step, step(s), n - 1, m); }
  }

  /** The register after each of `words` was mixed in and shifted eight times. */
  ghost function FeedWords<W>(step: W -> W, xor: (W, W) -> W, s: W, words: seq<W>): W
    decreases |words|
  {
    if words == [] then s else FeedWords(step, xor, Iterate(step, xor(s, words[0]), 8), words[1..])
  }

  lemma Absorb<W(!new)>(step: W -> W, xor: (W, W) -> W, s: W, low: W, high: W)
    requires Linear(step, xor) && Associative(xor)
    ensures Iterate(step, xor(s, xor(low, high)), 8) == xor(Iterate(step, xor(s, low), 8), Iterate(step, high, 8))
  {
    IterateLinear(step, xor, xor(s, low), high, 8);
    assert xor(xor(s, low), high) == xor(s, xor(low, high));
  }

  lemma FourSteps<W>(step: W -> W, xor: (W, W) -> W, s0: W, s1: W, s2: W, s3: W, w: seq<W>, t0: W, t1: W, t2: W)
    requires |w| == 4
    requires s1 == Iterate(step, xor(s0, w[0]), 8) && s2 == Iterate(step, xor(s1, w[1]), 8)
    requires s3 == Iterate(step, xor(s2, w[2]), 8)
    requires Iterate(step, t0, 8) == t1 && Iterate(step, t1, 8) == t2 && Iterate(step, t2, 8) == xor(s3, w[3])
    ensures FeedWords(step, xor, s0, w) == Iterate(step, t0, 32)
  {
    IterateTwice(step, t0, 8, 24);
    IterateTwice(step, t1, 8, 16);
    IterateTwice(step, t2, 8, 8);
    assert w[1..][1..] == w[2..] && w[2..][1..] == w[3..] && w[3..][1..] == [];
    assert FeedWords(step, xor, s0, w) == FeedWords(step, xor, s1, w[1..]);
    assert FeedWords(step, xor, s1, w[1..]) == FeedWords(step, xor, s2, w[2..]);
    assert FeedWords(step, xor, s2, w[2..]) == FeedWords(step, xor, s3, w[3..]);
    assert FeedWords(step, xor, s3, w[3..]) == FeedWords(step, xor, Iterate(step, xor(s3, w[3]), 8), []);
  }

  /** When what lies above each of four words only shifts down to the words after it, they act
      as one word mixed in at once. */
  lemma FeedFour<W(!new)>(step: W -> W, xor: (W, W) -> W, s: W, w: seq<W>, above: seq<W>)
    requires Linear(step, xor) && Associative(xor)
    requires |w| == 4 && |above| == 3
    requires Iterate(step, above[0], 8) == xor(w[1], above[1])
    requires Iterate(step, above[1], 8) == xor(w[2], above[2])
    requires Iterate(step, above[2], 8) == w[3]
    ensures FeedWords(step, xor, s, w) == Iterate(step, xor(s, xor(w[0], above[0])), 32)
  {
    var s1 := Iterate(step, xor(s, w[0]), 8);
    var s2 := Iterate(step, xor(s1, w[1]), 8);
    var s3 := Iterate(step, xor(s2, w[2]), 8);
    Absorb(step, xor, s, w[0], above[0]);
    Absorb(step, xor, s1, w[1], above[1]);
    Absorb(step, xor, s2, w[2], above[2]);
    FourSteps(step, xor, s, s1, s2, s3, w,
              xor(s, xor(w[0], above[0])), xor(s1, xor(w[1], above[1])), xor(s2, xor(w[2], above[2])));
  }

  /** `up` places a word above a zero byte; a word `small` accepts only shifts down from there. */
  ghost predicate Places<W(!new)>(step: W -> W, up: W -> W, small: W -> bool) {
    forall r :: small(r) ==> Iterate(step, up(r), 8) == r
  }

  lemma FeedPlaced<W(!new)>(step: W -> W, xor: (W, W) -> W, up: W -> W, small: W -> bool, s: W, w: seq<W>)
    requires Linear(step, xor) && Associative(xor) && Places(step, up, small)
    requires |w| == 4
    requires var r2 := xor(w[2], up(w[3]));
             var r1 := xor(w[1], up(r2));
             small(w[3]) && small(r2) && small(r1)
    ensures var r2 := xor(w[2], up(w[3]));
            var r1 := xor(w[1], up(r2));
            FeedWords(step, xor, s, w) == Iterate(step, xor(s, xor(w[0], up(r1))), 32)
  {
    var r2 := xor(w[2], up(w[3]));
    var r1 := xor(w[1], up(r2));
    FeedFour(step, xor, s, w, [up(r1), up(r2), up(w[3])]);
  }

  /** `w`, `double(w)`, ... stay out of `top` for `n` doublings. */
  predicate Clear<W>(double: W -> W, top: W -> bool, w: W, n: nat)
    decreases n
  {
    n == 0 || (!top(w) && Clear(double, top, double(w), n - 1))
  }

  lemma ClearFour<W>(double: W -> W, top: W -> bool, a: W, b: W, c: W, d: W, e: W, n: nat)
    requires n >= 4
    requires double(a) == b && double(b) == c && double(c) == d && double(d) == e
    requires !top(a) && !top(b) && !top(c) && !top(d)
    ensures Iterate(double, a, n) == Iterate(double, e, n - 4)
    ensures Clear(double, top, e, n - 4) ==> Clear(double, top, a, n)
  {
    assert Iterate(double, a, n) == Iterate(double, c, n - 2);
    assert Clear(double, top, c, n - 2) ==> Clear(double, top, a, n);
    assert Iterate(double, c, n - 2) == Iterate(double, e, n - 4);
    assert Clear(double, top, e, n - 4) ==> Clear(double, top, c, n - 2);
  }

  lemma {:induction false} ShiftsDown<W(!new)>(step: W -> W, double: W -> W, top: W -> bool, w: W, n: nat)
    requires forall v :: !top(v) ==> step(double(v)) == v
    requires Clear(double, top, w, n)
    ensures Iterate(step, Iterate(double, w, n), n) == w
    decreases n
  {
    if n > 0 {
      var up := Iterate(double, double(w), n - 1);
      ShiftsDown(step, double, top, double(w), n - 1);
      IterateTwice(step, up, n - 1, 1);
      assert Iterate(step, up, n) == step(double(w));
    }
  }
}
