/**
 Consistent Overhead Byte Stuffing (Cheshire and Baker, IEEE/ACM Transactions on Networking,
 1999), the codec between the frame's delimiters.
 */
module Cobs {
  import opened Bytes
  import opened Wrappers

  type Octets = seq<bv8>

  /** The longest run of nonzero bytes one code can carry. */
  const MAX_RUN := 254

  ghost predicate ZeroFree(s: Octets) {
    forall i :: 0 <= i < |s| ==> s[i] != 0
  }

  /** The length of the leading nonzero run, at most `limit`. */
  function Run(s: Octets, limit: nat): (k: nat)
    ensures k <= limit && k <= |s|
    ensures ZeroFree(s[..k])
    ensures k < limit && k < |s| ==> s[k] == 0
    decreases |s|
  {
    if s == [] || limit == 0 || s[0] == 0 then 0
    else
      var k := Run(s[1..], limit - 1);
      assert s[..k + 1] == [s[0]] + s[1..][..k];
      k + 1
  }

  function Code(run: nat): (c: bv8)
    requires run <= MAX_RUN
    ensures c as int == run + 1
  {
    FromNat(run + 1)
  }

  function Encode(s: Octets): Octets {
    var k := Run(s, MAX_RUN);
    if k == MAX_RUN then [Code(k)] + s[..k] + Encode(s[k..])
    else if k == |s| then [Code(k)] + s
    else [Code(k)] + s[..k] + Encode(s[k + 1..])
  }

  /** `None` for a code that is zero or reaches past the end. */
  function Decode(s: Octets): Option<Octets> {
    if s == [] then Some([])
    else
      var code := s[0] as int;
      if code == 0 || code > |s| then None
      else
        var rest := s[code..];
        Prepend(s[1..code] + (if code <= MAX_RUN && rest != [] then [0] else []), Decode(rest))
  }

  function Prepend(front: Octets, o: Option<Octets>): Option<Octets> {
    if o.Some? then Some(front + o.value) else None
  }

  lemma SplitAt<T>(s: seq<T>, k: nat)
    requires k < |s|
    ensures s == s[..k] + [s[k]] + s[k + 1..]
  {
  }

  lemma ZeroFreeBlock(code: bv8, run: Octets, rest: Octets)
    requires code as int > 0 && ZeroFree(run) && ZeroFree(rest)
    ensures ZeroFree([code] + run + rest)
  {
  }

  lemma ZeroFreeLast(code: bv8, run: Octets, k: nat)
    requires code as int > 0 && k == |run| && ZeroFree(run[..k])
    ensures ZeroFree([code] + run)
  {
    assert run[..k] == run;
    ZeroFreeBlock(code, run, []);
    assert [code] + run + [] == [code] + run;
  }

  lemma {:induction false} EncodeZeroFree(s: Octets)
    ensures ZeroFree(Encode(s)) && Encode(s) != []
    decreases |s|
  {
    var k := Run(s, MAX_RUN);
    if k == MAX_RUN {
      EncodeZeroFree(s[k..]);
      ZeroFreeBlock(Code(k), s[..k], Encode(s[k..]));
    } else if k == |s| {
      ZeroFreeLast(Code(k), s, k);
    } else {
      EncodeZeroFree(s[k + 1..]);
      ZeroFreeBlock(Code(k), s[..k], Encode(s[k + 1..]));
    }
  }

  lemma {:induction false} EncodeLength(s: Octets)
    ensures |s| < |Encode(s)| <= |s| + |s| / MAX_RUN + 1
    decreases |s|
  {
    var k := Run(s, MAX_RUN);
    if k == MAX_RUN {
      EncodeLength(s[k..]);
      assert |s[k..]| / MAX_RUN == |s| / MAX_RUN - 1;
    } else if k < |s| {
      EncodeLength(s[k + 1..]);
    }
  }

  lemma DecodeOne(code: bv8, run: Octets, rest: Octets)
    requires code as int == |run| + 1
    ensures Decode([code] + run + rest)
            == Prepend(run + (if |run| < MAX_RUN && rest != [] then [0] else []), Decode(rest))
  {
    var s := [code] + run + rest;
    assert s[1..|run| + 1] == run && s[|run| + 1..] == rest;
  }

  /** One block decodes to its run, then a zero unless the run is full or last. */
  lemma Block(code: bv8, run: Octets, encoded: Octets, rest: Octets)
    requires code as int == |run| + 1
    requires Decode(encoded) == Some(rest)
    ensures Decode([code] + run + encoded)
            == Some(run + (if |run| < MAX_RUN && encoded != [] then [0] else []) + rest)
  {
    DecodeOne(code, run, encoded);
  }

  lemma LastBlock(code: bv8, run: Octets)
    requires code as int == |run| + 1
    ensures Decode([code] + run) == Some(run)
  {
    DecodeOne(code, run, []);
    assert [code] + run + [] == [code] + run && run + [] + [] == run;
  }

  lemma RoundTripFull(s: Octets)
    requires Run(s, MAX_RUN) == MAX_RUN && Decode(Encode(s[MAX_RUN..])) == Some(s[MAX_RUN..])
    ensures Decode(Encode(s)) == Some(s)
  {
    var rest := s[MAX_RUN..];
    Block(Code(MAX_RUN), s[..MAX_RUN], Encode(rest), rest);
    assert s[..MAX_RUN] + [] + rest == s;
  }

  lemma RoundTripLast(s: Octets)
    requires Run(s, MAX_RUN) == |s| < MAX_RUN
    ensures Decode(Encode(s)) == Some(s)
  {
    LastBlock(Code(|s|), s);
  }

  lemma {:induction false} RoundTripZero(s: Octets, k: nat)
    requires k == Run(s, MAX_RUN) && k < MAX_RUN && k < |s| && Decode(Encode(s[k + 1..])) == Some(s[k + 1..])
    ensures Decode(Encode(s)) == Some(s)
  {
    var rest := s[k + 1..];
    EncodeZeroFree(rest);
    EncodeZero(s, k);
    BlockBeforeZero(s, k, Encode(rest));
  }

  lemma {:induction false} EncodeZero(s: Octets, k: nat)
    requires k == Run(s, MAX_RUN) && k < MAX_RUN && k < |s|
    ensures s[k] == 0 && Encode(s) == [Code(k)] + s[..k] + Encode(s[k + 1..])
  {
  }

  lemma BlockBeforeZero(s: Octets, k: nat, encoded: Octets)
    requires k < MAX_RUN && k < |s| && s[k] == 0 && encoded != [] && Decode(encoded) == Some(s[k + 1..])
    ensures Decode([Code(k)] + s[..k] + encoded) == Some(s)
  {
    Block(Code(k), s[..k], encoded, s[k + 1..]);
    SplitAt(s, k);
  }

  /** Decoding undoes encoding, for every byte sequence. */
  lemma {:induction false} RoundTrip(s: Octets)
    ensures Decode(Encode(s)) == Some(s)
    decreases |s|
  {
    var k := Run(s, MAX_RUN);
    if k == MAX_RUN {
      RoundTrip(s[k..]);
      RoundTripFull(s);
    } else if k == |s| {
      RoundTripLast(s);
    } else {
      RoundTrip(s[k + 1..]);
      RoundTripZero(s, k);
    }
  }

  /** Each block is the distance to the next zero, then the bytes up to it. */
  lemma Stuffed()
    ensures Encode([]) == [1]
    ensures Encode([0]) == [1, 1]
    ensures Encode([0x11, 0x22, 0, 0x33]) == [3, 0x11, 0x22, 2, 0x33]
  {
    assert Encode([]) == [1];
    EncodeZero([0], 0);
    OneByte([0x33]);
    TwoThenZero([0x11, 0x22, 0, 0x33]);
  }

  lemma OneByte(s: Octets)
    requires |s| == 1 && s[0] != 0
    ensures Encode(s) == [2, s[0]]
  {
    assert Run(s, MAX_RUN) == 1;
  }

  lemma TwoThenZero(s: Octets)
    requires |s| == 4 && s[0] != 0 && s[1] != 0 && s[2] == 0
    ensures Encode(s) == [3, s[0], s[1]] + Encode([s[3]])
  {
    assert Run(s, MAX_RUN) == 2;
    EncodeZero(s, 2);
    assert s[3..] == [s[3]];
  }
}
