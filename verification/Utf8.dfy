/**
 Texts kept in fixed arrays by `hil/agent/src/postmortem.rs`: `bytes` cuts a text at a character
 boundary and pads it with zeros, `text` reads it back. A text is its UTF-8 bytes, well-formed by
 table 3-7 of the Unicode Standard.
 */
module Utf8 {
  import opened Wrappers

  predicate Continues(b: bv8) {
    0x80 <= b < 0xC0
  }

  /** Whether `second` may follow `first` in a character of several bytes. */
  predicate Second(first: bv8, second: bv8) {
    if first == 0xE0 then 0xA0 <= second < 0xC0
    else if first == 0xED then 0x80 <= second < 0xA0
    else if first == 0xF0 then 0x90 <= second < 0xC0
    else if first == 0xF4 then 0x80 <= second < 0x90
    else Continues(second)
  }

  /** Length of the character that starts with `first`; zero if none does. */
  function Width(first: bv8): (n: nat)
    ensures n <= 4
    ensures Continues(first) ==> n == 0
  {
    if first < 0x80 then 1
    else if first < 0xC2 then 0
    else if first < 0xE0 then 2
    else if first < 0xF0 then 3
    else if first < 0xF5 then 4
    else 0
  }

  lemma SecondContinues(first: bv8, second: bv8)
    requires Second(first, second)
    ensures Continues(second)
  {
  }

  /** A well-formed character starts `s`. */
  predicate Starts(s: seq<bv8>) {
    s != [] &&
    var n := Width(s[0]);
    0 < n <= |s| && (n > 1 ==> Second(s[0], s[1])) && forall i :: 2 <= i < n ==> Continues(s[i])
  }

  predicate Valid(s: seq<bv8>) {
    s == [] || (Starts(s) && Valid(s[Width(s[0])..]))
  }

  /** `is_char_boundary`. */
  predicate Boundary(s: seq<bv8>, i: nat) {
    i == 0 || i == |s| || (i < |s| && !Continues(s[i]))
  }

  // ------------------------------------------------------ characters by their values

  function Six(b: bv8): bv32 {
    (b & 0x3F) as bv32
  }

  /** A character of two bytes is one from U+0080 on in the form 110xxxxx 10xxxxxx. */
  lemma TwoBytes(a: bv8, b: bv8)
    ensures Width(a) == 2 && Starts([a, b]) <==>
            a & 0xE0 == 0xC0 && b & 0xC0 == 0x80 && ((((a & 0x1F) as bv32) << 6) | Six(b)) >= 0x80
  {
  }

  /** One of three bytes is one from U+0800 on, other than the surrogates, in the form 1110xxxx 10xxxxxx
      10xxxxxx. */
  lemma ThreeBytes(a: bv8, b: bv8, c: bv8)
    ensures var value := (((a & 0x0F) as bv32) << 12) | (Six(b) << 6) | Six(c);
            Width(a) == 3 && Starts([a, b, c]) <==>
            a & 0xF0 == 0xE0 && b & 0xC0 == 0x80 && c & 0xC0 == 0x80 && value >= 0x800 &&
            !(0xD800 <= value <= 0xDFFF)
  {
    assert [a, b, c][2] == c;
    assert Width(a) == 3 ==> (Starts([a, b, c]) <==> Second(a, b) && Continues(c));
  }

  /** One of four bytes is one from U+10000 to U+10FFFF in the form 11110xxx and three of 10xxxxxx. */
  lemma FourBytes(a: bv8, b: bv8, c: bv8, d: bv8)
    ensures var value := (((a & 0x07) as bv32) << 18) | (Six(b) << 12) | (Six(c) << 6) | Six(d);
            Width(a) == 4 && Starts([a, b, c, d]) <==>
            a & 0xF8 == 0xF0 && b & 0xC0 == 0x80 && c & 0xC0 == 0x80 && d & 0xC0 == 0x80 &&
            0x10000 <= value <= 0x10FFFF
  {
    assert [a, b, c, d][2] == c && [a, b, c, d][3] == d;
    assert Width(a) == 4 ==> (Starts([a, b, c, d]) <==> Second(a, b) && Continues(c) && Continues(d));
  }

  lemma StartsContinues(s: seq<bv8>, i: nat)
    requires Starts(s) && 0 < i < Width(s[0])
    ensures Continues(s[i])
  {
    if i == 1 {
      SecondContinues(s[0], s[1]);
    }
  }

  lemma {:induction false} PrefixValidIff(s: seq<bv8>, e: nat)
    requires Valid(s) && e <= |s|
    ensures Valid(s[..e]) <==> Boundary(s, e)
  {
    if 0 < e {
      var n := Width(s[0]);
      if e < n {
        StartsContinues(s, e);
        assert s[..e][0] == s[0];
      } else {
        PrefixValidIff(s[n..], e - n);
        PrefixStarts(s, e);
        assert s[..e][n..] == s[n..][..e - n];
        BoundaryAfter(s, n, e);
      }
    }
  }

  lemma PrefixStarts(s: seq<bv8>, e: nat)
    requires Starts(s) && Width(s[0]) <= e <= |s|
    ensures Starts(s[..e]) && s[..e][0] == s[0]
  {
  }

  lemma BoundaryAfter(s: seq<bv8>, n: nat, e: nat)
    requires Valid(s) && s != [] && n == Width(s[0]) <= e <= |s| && 0 < n
    ensures Boundary(s, e) <==> Boundary(s[n..], e - n)
  {
    var rest := s[n..];
    if e == n && rest != [] {
      assert Starts(rest) && rest[0] == s[n];
    }
  }

  // ------------------------------------------------------ cutting

  /** Where a text is cut to fit `n` bytes. */
  function CutAt(s: seq<bv8>, n: nat): (e: nat)
    ensures e <= |s| && e <= n && Boundary(s, e)
    ensures forall i :: e < i <= |s| && i <= n ==> !Boundary(s, i)
  {
    LastBoundary(s, if |s| < n then |s| else n)
  }

  function LastBoundary(s: seq<bv8>, e: nat): (r: nat)
    requires e <= |s|
    ensures r <= e && Boundary(s, r) && forall i :: r < i <= e ==> !Boundary(s, i)
  {
    if Boundary(s, e) then e else LastBoundary(s, e - 1)
  }

  function Cut(s: seq<bv8>, n: nat): seq<bv8> {
    s[..CutAt(s, n)]
  }

  /** The cut text is the longest well-formed prefix that fits. */
  lemma CutIsLongest(s: seq<bv8>, n: nat, e: nat)
    requires Valid(s) && e <= |s|
    ensures Valid(Cut(s, n)) && |Cut(s, n)| <= n
    ensures e <= n && Valid(s[..e]) ==> e <= |Cut(s, n)|
  {
    PrefixValidIff(s, CutAt(s, n));
    PrefixValidIff(s, e);
  }

  function Zeros(n: nat): (z: seq<bv8>)
    ensures |z| == n && forall i :: 0 <= i < n ==> z[i] == 0
  {
    if n == 0 then [] else Zeros(n - 1) + [0]
  }

  function Padded(s: seq<bv8>, n: nat): (raw: seq<bv8>)
    ensures |raw| == n
  {
    Cut(s, n) + Zeros(n - |Cut(s, n)|)
  }

  method Bytes(s: seq<bv8>, n: nat) returns (raw: seq<bv8>)
    ensures raw == Padded(s, n)
  {
    var end := if |s| < n then |s| else n;
    while !Boundary(s, end)
      invariant 0 <= end <= |s| && end <= n
      invariant LastBoundary(s, end) == CutAt(s, n)
      decreases end
    {
      end := end - 1;
    }
    raw := Zeros(n);
    for i := 0 to end
      invariant |raw| == n
      invariant forall k :: 0 <= k < n ==> raw[k] == if k < i then s[k] else 0
    {
      raw := raw[i := s[i]];
    }
  }

  // ------------------------------------------------------ reading back

  /** Position of the first zero byte, or the length. */
  function FirstZero(s: seq<bv8>): (i: nat)
    ensures i <= |s| && (i < |s| ==> s[i] == 0) && forall k :: 0 <= k < i ==> s[k] != 0
  {
    if s == [] || s[0] == 0 then 0 else FirstZero(s[1..]) + 1
  }

  function UpToZero(s: seq<bv8>): seq<bv8> {
    s[..FirstZero(s)]
  }

  function Text(raw: seq<bv8>): Option<seq<bv8>> {
    if Valid(UpToZero(raw)) then Some(UpToZero(raw)) else None
  }

  lemma FirstZeroIs(s: seq<bv8>, i: nat)
    requires i <= |s| && (i < |s| ==> s[i] == 0) && forall k :: 0 <= k < i ==> s[k] != 0
    ensures FirstZero(s) == i
  {
  }

  lemma UpToZeroValid(s: seq<bv8>)
    requires Valid(s)
    ensures Valid(UpToZero(s))
  {
    PrefixValidIff(s, FirstZero(s));
  }

  /** A text comes back cut to its longest prefix that fits, and to its first zero. */
  lemma TextOfPadded(s: seq<bv8>, n: nat)
    requires Valid(s)
    ensures Text(Padded(s, n)) == Some(UpToZero(Cut(s, n)))
  {
    CutIsLongest(s, n, 0);
    UpToZeroValid(Cut(s, n));
    UpToZeroPadded(Cut(s, n), n - |Cut(s, n)|);
  }

  lemma UpToZeroPadded(cut: seq<bv8>, n: nat)
    ensures UpToZero(cut + Zeros(n)) == UpToZero(cut)
  {
    var raw, i := cut + Zeros(n), FirstZero(cut);
    assert forall k :: 0 <= k < |cut| ==> raw[k] == cut[k];
    FirstZeroIs(raw, i);
    assert raw[..i] == cut[..i];
  }

  /** A text without zeros that fits comes back whole. */
  lemma ShortTextWhole(s: seq<bv8>, n: nat)
    requires Valid(s) && |s| <= n && forall k :: 0 <= k < |s| ==> s[k] != 0
    ensures Text(Padded(s, n)) == Some(s)
  {
    TextOfPadded(s, n);
    assert Cut(s, n) == s;
    FirstZeroIs(s, |s|);
  }
}
