/** Bytes, their values and little-endian words. */
module Bytes {
  /** The byte of value `n`. */
  function FromNat(n: nat): (b: bv8)
    requires n < 256
    ensures b as int == n
  {
    if n == 0 then 0
    else
      var less := FromNat(n - 1);
      Increment(less);
      less + 1
  }

  lemma Increment(b: bv8)
    requires b as int < 255
    ensures (b + 1) as int == b as int + 1
  {
  }

  lemma SameValue(a: bv8, b: bv8)
    requires a as int == b as int
    ensures a == b
  {
  }

  /** The two little-endian bytes of a 16-bit length. */
  function Le16(n: nat): (bytes: seq<bv8>)
    requires n < 65536
    ensures |bytes| == 2
  {
    [FromNat(n % 256), FromNat(n / 256)]
  }

  function FromLe16(bytes: seq<bv8>): (n: nat)
    requires |bytes| == 2
    ensures n < 65536
  {
    bytes[0] as int + 256 * (bytes[1] as int)
  }

  lemma Le16RoundTrip(n: nat)
    requires n < 65536
    ensures FromLe16(Le16(n)) == n
  {
  }

  lemma Le16Inverse(bytes: seq<bv8>)
    requires |bytes| == 2
    ensures Le16(FromLe16(bytes)) == bytes
  {
    FromNatValue(bytes[0]);
    FromNatValue(bytes[1]);
    Le16Sum(FromLe16(bytes), bytes[0] as int, bytes[1] as int);
  }

  lemma Le16Sum(n: nat, low: nat, high: nat)
    requires low < 256 && high < 256 && n == low + 256 * high
    ensures n < 65536 && Le16(n) == [FromNat(low), FromNat(high)]
  {
    Digits(n, low, high);
    Le16Digits(n, low, high);
  }

  lemma FromNatValue(b: bv8)
    ensures FromNat(b as int) == b
  {
    SameValue(FromNat(b as int), b);
  }

  lemma Le16Digits(n: nat, low: nat, high: nat)
    requires n < 65536 && low == n % 256 && high == n / 256
    ensures Le16(n) == [FromNat(low), FromNat(high)]
  {
  }

  lemma Digits(n: nat, low: nat, high: nat)
    requires low < 256 && n == low + 256 * high
    ensures n % 256 == low && n / 256 == high
  {
  }

  /** The four little-endian bytes of a 32-bit number. */
  function Le32(n: nat): (bytes: seq<bv8>)
    requires n < 0x1_0000_0000
    ensures |bytes| == 4
  {
    Le16(n % 65536) + Le16(n / 65536)
  }

  lemma Le32Injective(m: nat, n: nat)
    requires m < 0x1_0000_0000 && n < 0x1_0000_0000 && Le32(m) == Le32(n)
    ensures m == n
  {
    assert Le32(m)[..2] == Le16(m % 65536) && Le32(m)[2..] == Le16(m / 65536);
    assert Le32(n)[..2] == Le16(n % 65536) && Le32(n)[2..] == Le16(n / 65536);
    Le16RoundTrip(m % 65536);
    Le16RoundTrip(n % 65536);
    Le16RoundTrip(m / 65536);
    Le16RoundTrip(n / 65536);
  }

  function Low(x: bv64): bv32 {
    (x & 0xFFFF_FFFF) as bv32
  }

  function High(x: bv64): bv32 {
    (x >> 32) as bv32
  }

  function Pair(low: bv32, high: bv32): bv64 {
    (low as bv64) | ((high as bv64) << 32)
  }

  lemma PairOfHalves(x: bv64)
    ensures Pair(Low(x), High(x)) == x
  {
  }

  lemma HalvesOfPair(low: bv32, high: bv32)
    ensures Low(Pair(low, high)) == low && High(Pair(low, high)) == high
  {
  }
}
