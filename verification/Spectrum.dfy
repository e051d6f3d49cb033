/**
 Frequency ranges of `stand/claims/src/spectrum.rs`: their text form, conflict and
 covering.
 */
module Spectrum {
  import opened Wrappers

  datatype Need = NoNeed | Tolerant | Strict
  datatype Emits = Silent | Normal | Noisy

  /** Ends in kHz, in either order, with what a lease needs and emits between them. */
  datatype Range = Range(low: nat, high: nat, need: Need, emits: Emits)

  const U64: nat := 0x1_0000_0000_0000_0000

  ghost predicate Fits(r: Range) {
    r.low < U64 && r.high < U64
  }

  function NeedRank(n: Need): nat {
    match n
    case NoNeed => 0
    case Tolerant => 1
    case Strict => 2
  }

  function EmitsRank(e: Emits): nat {
    match e
    case Silent => 0
    case Normal => 1
    case Noisy => 2
  }

  predicate Overlaps(a: Range, b: Range) {
    a.low <= b.high && b.low <= a.high
  }

  predicate Excludes(need: Need, emits: Emits) {
    match need
    case Strict => emits != Silent
    case Tolerant => emits == Noisy
    case NoNeed => false
  }

  predicate Conflicts(a: Range, b: Range) {
    Overlaps(a, b) && (Excludes(a.need, b.emits) || Excludes(b.need, a.emits))
  }

  predicate Covers(outer: Range, inner: Range) {
    && outer.low <= inner.low && inner.high <= outer.high
    && NeedRank(outer.need) >= NeedRank(inner.need)
    && EmitsRank(outer.emits) >= EmitsRank(inner.emits)
  }

  predicate At(r: Range, p: nat) {
    r.low <= p <= r.high
  }

  /** Two uses clash when one needs quiet that the other breaks: strict needs bear no emission, tolerant
      ones no noise. */
  predicate Disturbs(need: Need, emits: Emits) {
    (need == Strict && (emits == Normal || emits == Noisy)) || (need == Tolerant && emits == Noisy)
  }

  /** Ranges with their ends in order conflict exactly if they share a frequency where one disturbs the
      other. */
  lemma ConflictsMeaning(a: Range, b: Range)
    requires a.low <= a.high && b.low <= b.high
    ensures Conflicts(a, b) <==>
            (exists p :: At(a, p) && At(b, p)) &&
            (Disturbs(a.need, b.emits) || Disturbs(b.need, a.emits))
  {
    var p := if a.low < b.low then b.low else a.low;
    assert Overlaps(a, b) ==> At(a, p) && At(b, p);
  }

  // ------------------------------------------------------ text

  const PREFIX := "spectrum:"

  function NeedText(n: Need): string {
    match n
    case NoNeed => "none"
    case Tolerant => "tolerant"
    case Strict => "strict"
  }

  function EmitsText(e: Emits): string {
    match e
    case Silent => "none"
    case Normal => "normal"
    case Noisy => "noisy"
  }

  function ParseNeed(s: string): Option<Need> {
    if s == "none" then Some(NoNeed)
    else if s == "tolerant" then Some(Tolerant)
    else if s == "strict" then Some(Strict)
    else None
  }

  function ParseEmits(s: string): Option<Emits> {
    if s == "none" then Some(Silent)
    else if s == "normal" then Some(Normal)
    else if s == "noisy" then Some(Noisy)
    else None
  }

  function Digit(d: nat): char
    requires d < 10
  {
    '0' + d as char
  }

  predicate IsDigit(c: char) {
    '0' <= c <= '9'
  }

  function Value(c: char): nat
    requires IsDigit(c)
  {
    (c - '0') as int
  }

  /** The decimal text of `n`. */
  function Decimal(n: nat): (s: string)
    ensures s != [] && forall i :: 0 <= i < |s| ==> IsDigit(s[i])
  {
    if n < 10 then [Digit(n)] else Decimal(n / 10) + [Digit(n % 10)]
  }

  /** The value of a text of digits; `None` if another character occurs. */
  function Digits(s: string): Option<nat> {
    if s == [] then Some(0)
    else
      var last := s[|s| - 1];
      var front := Digits(s[..|s| - 1]);
      if IsDigit(last) && front.Some? then Some(front.value * 10 + Value(last)) else None
  }

  /** `u64::from_str`: an optional plus sign, then digits of a value that fits. */
  function ParseU64(s: string): Option<nat> {
    var digits := if s != [] && s[0] == '+' then s[1..] else s;
    var value := Digits(digits);
    if digits != [] && value.Some? && value.value < U64 then value else None
  }

  /** The index of the first `c` in `s`, or its length. */
  function Find(s: string, c: char): (i: nat)
    ensures i <= |s| && (i < |s| ==> s[i] == c)
    ensures forall k :: 0 <= k < i ==> s[k] != c
  {
    if s == [] || s[0] == c then 0 else Find(s[1..], c) + 1
  }

  /** The parts of `s` between occurrences of `c`. */
  function Split(s: string, c: char): (parts: seq<string>)
    ensures parts != []
    decreases |s|
  {
    var i := Find(s, c);
    if i == |s| then [s] else [s[..i]] + Split(s[i + 1..], c)
  }

  predicate IsRange(resource: string) {
    PREFIX <= resource
  }

  /** `<low>-<high>`. */
  function ParseEnds(s: string): Option<(nat, nat)> {
    var dash := Find(s, '-');
    if dash == |s| then None
    else
      var low, high := ParseU64(s[..dash]), ParseU64(s[dash + 1..]);
      if low.Some? && high.Some? then Some((low.value, high.value)) else None
  }

  /** `<ends>:<need>:<emits>`. */
  function ParseParts(rest: string): Option<Range> {
    var parts := Split(rest, ':');
    if |parts| != 3 then None
    else
      var ends, need, emits := ParseEnds(parts[0]), ParseNeed(parts[1]), ParseEmits(parts[2]);
      if ends.Some? && need.Some? && emits.Some?
      then Some(Range(ends.value.0, ends.value.1, need.value, emits.value))
      else None
  }

  function Parse(resource: string): Option<Range> {
    if IsRange(resource) then ParseParts(resource[|PREFIX|..]) else None
  }

  function Resource(r: Range): string {
    PREFIX + Decimal(r.low) + "-" + Decimal(r.high) + ":" + NeedText(r.need) + ":" + EmitsText(r.emits)
  }

  lemma DigitValue(d: nat)
    requires d < 10
    ensures IsDigit(Digit(d)) && Value(Digit(d)) == d
  {
  }

  lemma {:induction false} DigitsOfDecimal(n: nat)
    ensures Digits(Decimal(n)) == Some(n)
    decreases n
  {
    if n < 10 {
      DigitValue(n);
      assert Decimal(n)[..0] == [];
    } else {
      DigitsOfDecimal(n / 10);
      DigitValue(n % 10);
      assert Decimal(n)[..|Decimal(n)| - 1] == Decimal(n / 10);
    }
  }

  lemma ParseOfDecimal(n: nat)
    requires n < U64
    ensures ParseU64(Decimal(n)) == Some(n)
  {
    DigitsOfDecimal(n);
    assert IsDigit(Decimal(n)[0]);
  }

  lemma FindAfter(a: string, c: char, b: string)
    requires c !in a
    ensures Find(a + [c] + b, c) == |a|
  {
    var s := a + [c] + b;
    assert s[|a|] == c && forall k :: 0 <= k < |a| ==> s[k] == a[k];
  }

  lemma SplitFirst(a: string, c: char, b: string)
    requires c !in a
    ensures Split(a + [c] + b, c) == [a] + Split(b, c)
  {
    FindAfter(a, c, b);
    var s := a + [c] + b;
    assert s[..|a|] == a && s[|a| + 1..] == b;
  }

  lemma SplitLast(a: string, c: char)
    requires c !in a
    ensures Split(a, c) == [a]
  {
  }

  lemma SplitThree(a: string, b: string, c: string)
    requires ':' !in a && ':' !in b && ':' !in c
    ensures Split(a + ":" + b + ":" + c, ':') == [a, b, c]
  {
    assert a + ":" + b + ":" + c == a + [':'] + (b + [':'] + c);
    SplitFirst(a, ':', b + [':'] + c);
    SplitFirst(b, ':', c);
    SplitLast(c, ':');
  }

  lemma NoPunctuation(n: nat)
    ensures ':' !in Decimal(n) && '-' !in Decimal(n)
  {
    assert forall i :: 0 <= i < |Decimal(n)| ==> IsDigit(Decimal(n)[i]);
  }

  lemma TextRoundTrip(n: Need, e: Emits)
    ensures ParseNeed(NeedText(n)) == Some(n) && ParseEmits(EmitsText(e)) == Some(e)
    ensures ':' !in NeedText(n) && ':' !in EmitsText(e)
  {
  }

  lemma ParseOfEnds(low: nat, high: nat)
    requires low < U64 && high < U64
    ensures ParseEnds(Decimal(low) + "-" + Decimal(high)) == Some((low, high))
    ensures ':' !in Decimal(low) + "-" + Decimal(high)
  {
    var a, b := Decimal(low), Decimal(high);
    NoPunctuation(low);
    NoPunctuation(high);
    var ends := a + ['-'] + b;
    FindAfter(a, '-', b);
    assert ends[..|a|] == a && ends[|a| + 1..] == b;
    ParseOfDecimal(low);
    ParseOfDecimal(high);
  }

  lemma ParseOfParts(ends: string, r: Range)
    requires ParseEnds(ends) == Some((r.low, r.high)) && ':' !in ends
    ensures ParseParts(ends + ":" + NeedText(r.need) + ":" + EmitsText(r.emits)) == Some(r)
  {
    TextRoundTrip(r.need, r.emits);
    SplitThree(ends, NeedText(r.need), EmitsText(r.emits));
  }

  lemma AfterPrefix(rest: string)
    ensures IsRange(PREFIX + rest) && Parse(PREFIX + rest) == ParseParts(rest)
  {
    assert (PREFIX + rest)[|PREFIX|..] == rest;
  }

  /** Every range a 64-bit field can hold comes back from its resource text. */
  lemma ParseOfResource(r: Range)
    requires Fits(r)
    ensures Parse(Resource(r)) == Some(r) && IsRange(Resource(r))
  {
    var ends := Decimal(r.low) + "-" + Decimal(r.high);
    var rest := ends + ":" + NeedText(r.need) + ":" + EmitsText(r.emits);
    ParseOfEnds(r.low, r.high);
    ParseOfParts(ends, r);
    AfterPrefix(rest);
    ResourceParts(r);
  }

  lemma ResourceParts(r: Range)
    ensures Resource(r) == PREFIX + (Decimal(r.low) + "-" + Decimal(r.high) + ":" + NeedText(r.need) + ":" +
                                     EmitsText(r.emits))
  {
  }

  /** Everything that parses fits a 64-bit field. */
  lemma ParsedFits(resource: string)
    requires Parse(resource).Some?
    ensures Fits(Parse(resource).value) && IsRange(resource)
  {
  }

  /** The text as other tools read it. */
  lemma TextForm()
    ensures Resource(Range(2, 40, Strict, Noisy)) == "spectrum:2-40:strict:noisy"
  {
    assert Decimal(40) == Decimal(4) + [Digit(0)] == "40";
    assert Decimal(2) == "2";
  }

  lemma TextNames()
    ensures NeedText(NoNeed) == "none" && NeedText(Tolerant) == "tolerant" && NeedText(Strict) == "strict"
    ensures EmitsText(Silent) == "none" && EmitsText(Normal) == "normal" && EmitsText(Noisy) == "noisy"
  {
  }
}
