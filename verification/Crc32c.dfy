/**
 CRC-32C (CRC_32_ISCSI, section 12.1 of RFC 3720) as the bitwise loop of
 `RawFault::digest` computes it, shown to be a lawful shift register.
 */
module Crc32c {
  import opened ShiftRegister

  /** 0x1EDC6F41 with its bits reversed. */
  const POLYNOMIAL: bv32 := 0x82F6_3B78

  const INIT: bv32 := 0xFFFF_FFFF

  function Bit(s: bv32): bv32 {
    (s >> 1) ^ (if s & 1 == 1 then POLYNOMIAL else 0)
  }

  function Xor(a: bv32, b: bv32): bv32 {
    a ^ b
  }

  function Not(a: bv32): bv32 {
    !a
  }

  function Wide(byte: bv8): bv32 {
    byte as bv32
  }

  function Narrow(word: bv32): bv8 {
    (word & 0xFF) as bv8
  }

  function ToLe(word: bv32): (bytes: seq<bv8>)
    ensures |bytes| == 4
  {
    [Narrow(word), Narrow(word >> 8), Narrow(word >> 16), Narrow(word >> 24)]
  }

  function Join(a: bv8, b: bv8, c: bv8, d: bv8): bv32 {
    Wide(a) | (Wide(b) << 8) | (Wide(c) << 16) | (Wide(d) << 24)
  }

  /** The little-endian word of four bytes. */
  function FromLe(bytes: seq<bv8>): bv32 {
    if |bytes| == 4 then Join(bytes[0], bytes[1], bytes[2], bytes[3]) else 0
  }

  function Crc(): Register<bv32, bv8> {
    Register(Bit, Xor, Wide, FromLe, ToLe, Not, INIT)
  }

  function Update(s: bv32, bytes: seq<bv8>): bv32 {
    Crc().Feed(s, bytes)
  }

  function Checksum(bytes: seq<bv8>): bv32 {
    Crc().Checksum(bytes)
  }

  lemma NarrowJoin(a: bv8, b: bv8, c: bv8, d: bv8)
    ensures var w := Join(a, b, c, d);
            Narrow(w) == a && Narrow(w >> 8) == b && Narrow(w >> 16) == c && Narrow(w >> 24) == d
  {
  }

  lemma JoinNarrow(word: bv32)
    ensures Join(Narrow(word), Narrow(word >> 8), Narrow(word >> 16), Narrow(word >> 24)) == word
  {
  }

  lemma LeRoundTrip(word: bv32)
    ensures FromLe(ToLe(word)) == word
  {
    JoinNarrow(word);
  }

  lemma LeInverse(bytes: seq<bv8>)
    requires |bytes| == 4
    ensures ToLe(FromLe(bytes)) == bytes
  {
    NarrowJoin(bytes[0], bytes[1], bytes[2], bytes[3]);
  }

  // The bit step is linear and, because the polynomial's top bit is set, injective.

  lemma BitInjective(a: bv32, b: bv32)
    requires Bit(a) == Bit(b)
    ensures a == b
  {
  }

  lemma XorShift(a: bv32, b: bv32)
    ensures (a ^ b) >> 1 == (a >> 1) ^ (b >> 1)
    ensures (a ^ b) & 1 == (a & 1) ^ (b & 1)
    ensures (a & 1 == 0 || a & 1 == 1) && (b & 1 == 0 || b & 1 == 1)
  {
  }

  lemma XorAc(a: bv32, b: bv32, p: bv32)
    ensures (a ^ b) ^ p == (a ^ p) ^ b == a ^ (b ^ p)
    ensures (a ^ p) ^ (b ^ p) == a ^ b
  {
  }

  lemma BitLinear(a: bv32, b: bv32)
    ensures Bit(a ^ b) == Bit(a) ^ Bit(b)
  {
    XorShift(a, b);
    XorAc(a >> 1, b >> 1, POLYNOMIAL);
  }

  lemma XorLaws(a: bv32, b: bv32, c: bv32)
    ensures (a ^ b) ^ c == a ^ (b ^ c)
    ensures a ^ b == b ^ a
  {
  }

  lemma XorCancel(a: bv32, b: bv32, c: bv32)
    requires a ^ c == b ^ c
    ensures a == b
  {
  }

  lemma XorNot(s: bv32)
    ensures s ^ !s == INIT
  {
  }

  lemma IsAssociative()
    ensures Associative(Xor)
  {
    forall a, b, c ensures Xor(Xor(a, b), c) == Xor(a, Xor(b, c)) {
      XorLaws(a, b, c);
    }
  }

  lemma IsLinear()
    ensures Linear(Bit, Xor)
  {
    forall a, b ensures Bit(Xor(a, b)) == Xor(Bit(a), Bit(b)) {
      BitLinear(a, b);
    }
  }

  lemma IsInjective()
    ensures Injective(Bit)
  {
    forall a, b | Bit(a) == Bit(b) ensures a == b {
      BitInjective(a, b);
    }
  }

  // Three bytes placed above a zero byte only shift down.

  function Double(w: bv32): bv32 {
    w << 1
  }

  predicate Top(w: bv32) {
    w & 0x8000_0000 != 0
  }

  function Up(w: bv32): bv32 {
    w << 8
  }

  predicate Small(w: bv32) {
    w & 0xFF00_0000 == 0
  }

  lemma HalvesDouble(w: bv32)
    requires !Top(w)
    ensures Bit(Double(w)) == w
  {
  }

  lemma NibbleBits(w: bv32)
    requires w & 0xF000_0000 == 0
    ensures !Top(w) && !Top(w << 1) && !Top(w << 2) && !Top(w << 3)
    ensures Double(w) == w << 1 && Double(w << 1) == w << 2 && Double(w << 2) == w << 3 && Double(w << 3) == w << 4
  {
  }

  lemma DoubledFour(w: bv32, up: bv32, n: nat)
    requires n >= 4 && w & 0xF000_0000 == 0 && up == w << 4
    ensures Iterate(Double, w, n) == Iterate(Double, up, n - 4)
    ensures Clear(Double, Top, up, n - 4) ==> Clear(Double, Top, w, n)
  {
    NibbleBits(w);
    ClearFour(Double, Top, w, w << 1, w << 2, w << 3, w << 4, n);
  }

  lemma UpIsDoubled(w: bv32, n: nat)
    requires Small(w) && n == 8
    ensures Iterate(Double, w, n) == Up(w) && Clear(Double, Top, w, n)
  {
    var nibble := ByteBits(w);
    DoubledFour(w, nibble, n);
    DoubledFour(nibble, Up(w), n - 4);
  }

  lemma ByteBits(w: bv32) returns (nibble: bv32)
    requires Small(w)
    ensures w & 0xF000_0000 == 0 && nibble == w << 4
    ensures nibble & 0xF000_0000 == 0 && Up(w) == nibble << 4
  {
    nibble := w << 4;
  }

  lemma IsPlaced()
    ensures Places(Bit, Up, Small)
  {
    forall w | !Top(w) ensures Bit(Double(w)) == w { HalvesDouble(w); }
    forall r | Small(r) ensures Iterate(Bit, Up(r), 8) == r {
      UpIsDoubled(r, 8);
      ShiftsDown(Bit, Double, Top, r, 8);
    }
  }

  /** A word from its bytes: each byte below what lies above it. */
  lemma Above(a: bv8, b: bv8, c: bv8, d: bv8)
    ensures Join(a, b, c, d) == Xor(Wide(a), Up(Xor(Wide(b), Up(Xor(Wide(c), Up(Wide(d)))))))
  {
  }

  lemma AboveSmall(b: bv8, c: bv8, d: bv8)
    ensures Small(Wide(d)) && Small(Xor(Wide(c), Up(Wide(d)))) && Small(Xor(Wide(b), Up(Xor(Wide(c), Up(Wide(d))))))
  {
  }

  lemma {:induction false} FeedIsFeedWords(s: bv32, bytes: seq<bv8>, words: seq<bv32>)
    requires |words| == |bytes| && forall i :: 0 <= i < |bytes| ==> words[i] == Wide(bytes[i])
    ensures Crc().Feed(s, bytes) == FeedWords(Bit, Xor, s, words)
    decreases |bytes|
  {
    if bytes != [] {
      FeedIsFeedWords(Iterate(Bit, Xor(s, words[0]), 8), bytes[1..], words[1..]);
    }
  }

  /** Four bytes act as one 32-bit word mixed into the state. */
  lemma WordUpdate(s: bv32, bytes: seq<bv8>)
    requires |bytes| == 4
    ensures Crc().Feed(s, bytes) == Iterate(Bit, Xor(s, FromLe(bytes)), 32)
  {
    var words := [Wide(bytes[0]), Wide(bytes[1]), Wide(bytes[2]), Wide(bytes[3])];
    FeedIsFeedWords(s, bytes, words);
    Above(bytes[0], bytes[1], bytes[2], bytes[3]);
    AboveSmall(bytes[1], bytes[2], bytes[3]);
    IsAssociative();
    IsLinear();
    IsPlaced();
    FeedPlaced(Bit, Xor, Up, Small, s, words);
  }

  lemma IsLawful()
    ensures Crc().Lawful()
  {
    IsInjective();
    forall a, b, c | Xor(a, c) == Xor(b, c) ensures a == b { XorCancel(a, b, c); }
    forall a, b, c | Xor(c, a) == Xor(c, b) ensures a == b {
      XorLaws(a, c, 0);
      XorLaws(b, c, 0);
      XorCancel(a, b, c);
    }
    forall s, bytes | |bytes| == 4 ensures Crc().Feed(s, bytes) == Iterate(Bit, Xor(s, FromLe(bytes)), 32) {
      WordUpdate(s, bytes);
    }
    forall bytes | |bytes| == 4 ensures ToLe(FromLe(bytes)) == bytes { LeInverse(bytes); }
    forall w ensures FromLe(ToLe(w)) == w { LeRoundTrip(w); }
    forall s ensures Xor(s, Not(s)) == INIT { XorNot(s); }
  }

  lemma UpdateConcat(s: bv32, a: seq<bv8>, b: seq<bv8>)
    ensures Update(s, a + b) == Update(Update(s, a), b)
  {
    Crc().FeedConcat(s, a, b);
  }

  /** The loop of `RawFault::digest` over one byte slice. */
  method UpdateLoop(start: bv32, bytes: seq<bv8>) returns (digest: bv32)
    ensures digest == Update(start, bytes)
  {
    digest := start;
    for i := 0 to |bytes|
      invariant Update(digest, bytes[i..]) == Update(start, bytes)
    {
      digest := UpdateByte(digest, bytes[i]);
    }
  }

  method UpdateByte(start: bv32, byte: bv8) returns (digest: bv32)
    ensures digest == Iterate(Bit, Xor(start, Wide(byte)), 8)
  {
    digest := start ^ (byte as bv32);
    for k := 0 to 8
      invariant Iterate(Bit, digest, 8 - k) == Iterate(Bit, Xor(start, Wide(byte)), 8)
    {
      MaskedBit(digest);
      digest := (digest >> 1) ^ ((0 - (digest & 1)) & POLYNOMIAL);
    }
  }

  lemma MaskedBit(s: bv32)
    ensures (s >> 1) ^ ((0 - (s & 1)) & POLYNOMIAL) == Bit(s)
  {
    LowBit(s);
    Mask(s & 1);
  }

  lemma LowBit(s: bv32)
    ensures s & 1 == 0 || s & 1 == 1
  {
  }

  lemma Mask(b: bv32)
    requires b == 0 || b == 1
    ensures (0 - b) & POLYNOMIAL == if b == 1 then POLYNOMIAL else 0
  {
  }

  /** No message followed by its checksum stays so when up to four consecutive bytes change. */
  lemma BurstDetected(bytes: seq<bv8>, before: seq<bv8>, u: seq<bv8>, v: seq<bv8>, after: seq<bv8>)
    requires |u| == |v| <= 4 && u != v
    requires bytes + ToLe(Checksum(bytes)) == before + u + after
    ensures var damaged := before + v + after;
            |damaged| == |bytes| + 4
            && FromLe(damaged[|bytes|..]) != Checksum(damaged[..|bytes|])
  {
    IsLawful();
    Crc().BurstDetected(bytes, before, u, v, after);
  }

  /** Equal-length messages that differ only within four consecutive bytes have different
      checksums. */
  lemma BurstChangesChecksum(before: seq<bv8>, u: seq<bv8>, v: seq<bv8>, after: seq<bv8>)
    requires |u| == |v| <= 4 && u != v
    ensures Checksum(before + u + after) != Checksum(before + v + after)
  {
    IsLawful();
    if Checksum(before + u + after) == Checksum(before + v + after) {
      NotInjective(Update(INIT, before + u + after), Update(INIT, before + v + after));
      Crc().BurstChangesState(INIT, before, u, v, after);
    }
  }

  lemma NotInjective(a: bv32, b: bv32)
    requires Not(a) == Not(b)
    ensures a == b
  {
  }

  /** The checksum of one zero byte, which only this polynomial, start and complement give. */
  lemma ChecksumOfZero()
    ensures Checksum([0]) == 0x527D_5351
  {
    EightBits(0xFFFF_FFFF, 0xFD09_C487, 0xFC72_D93B, 0xFCCF_57E5, 0xFC91_908A,
              0x7E48_C845, 0xBDD2_5F5A, 0x5EE9_2FAD, 0xAD82_ACAE);
    assert Update(INIT, [0]) == Iterate(Bit, Xor(INIT, Wide(0)), 8);
  }

  lemma EightBits(s0: bv32, s1: bv32, s2: bv32, s3: bv32, s4: bv32, s5: bv32, s6: bv32, s7: bv32, s8: bv32)
    requires Bit(s0) == s1 && Bit(s1) == s2 && Bit(s2) == s3 && Bit(s3) == s4
    requires Bit(s4) == s5 && Bit(s5) == s6 && Bit(s6) == s7 && Bit(s7) == s8
    ensures Iterate(Bit, s0, 8) == s8
  {
    assert Iterate(Bit, s0, 8) == Iterate(Bit, s2, 6) == Iterate(Bit, s4, 4) == Iterate(Bit, s6, 2);
    assert Iterate(Bit, s6, 2) == Iterate(Bit, s7, 1) == Iterate(Bit, s8, 0);
  }
}
