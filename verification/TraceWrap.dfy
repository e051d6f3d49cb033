/**
 Write order past the wrap of the 32-bit sequence (`record` and `oldest_first` of
 `crates/trace/src/store.rs`). Records are numbered without end here; the tag of number `n` is that of
 `n % 2^32`, and its slot is that modulo the ring's size. `oldest_first` gives back the write order of
 whatever survives exactly if the numbers held have different virtual numbers within half the tag
 period, where the virtual number steps back by one at each wrap.
 */
module TraceWrap {
  import opened Arithmetic
  import opened TraceOrder
  import Sorting

  // ------------------------------------------------------ virtual numbers

  /** One number is lost at each wrap, because 2^32 leaves 1 modulo the tag period. */
  function Virtual(n: nat): nat {
    n - n / U32
  }

  lemma TagOfVirtual(n: nat)
    ensures Tag(n % U32) == Tag(Virtual(n))
  {
    var q, r := n / U32, n % U32;
    assert n == q * U32 + r;
    WholePeriods(65537 * q, r);
    assert Virtual(n) == 65537 * q * TAG_PERIOD + r;
  }

  lemma WholePeriods(k: nat, r: nat)
    ensures (k * TAG_PERIOD + r) % TAG_PERIOD == r % TAG_PERIOD
  {
  }

  /** Only the neighbours across a wrap share a virtual number. */
  lemma VirtualGrows(m: nat, n: nat)
    requires m < n
    ensures Virtual(m) <= Virtual(n) && Virtual(n) - Virtual(m) <= n - m
    ensures Virtual(m) == Virtual(n) <==> n == m + 1 && n % U32 == 0
  {
    var a, b := m / U32, n / U32;
    assert m == a * U32 + m % U32 && n == b * U32 + n % U32;
    QuotientGrows(a, m % U32, b, n % U32);
  }

  lemma QuotientGrows(a: nat, r: nat, b: nat, t: nat)
    requires r < U32 && t < U32 && a * U32 + r < b * U32 + t
    ensures a <= b && b - a <= b * U32 + t - (a * U32 + r)
    ensures b - a == b * U32 + t - (a * U32 + r) <==> b == a + 1 && t == 0 && r == U32 - 1
  {
  }

  // ------------------------------------------------------ what survives, and how it is read

  ghost predicate Increasing(numbers: seq<nat>) {
    forall i, j :: 0 <= i < j < |numbers| ==> numbers[i] < numbers[j]
  }

  /** Some of the records held, in write order. */
  ghost predicate Survive(held: set<nat>, numbers: seq<nat>) {
    Increasing(numbers) && forall i :: 0 <= i < |numbers| ==> numbers[i] in held
  }

  /** Records with these numbers, whatever else they say. */
  ghost predicate Carry(order: seq<Record>, numbers: seq<nat>) {
    |order| == |numbers| && forall i :: 0 <= i < |order| ==> order[i].tag == Tag(numbers[i] % U32)
  }

  /** `start` is where `oldest_first` may start after it sorted to `sorted`. */
  ghost predicate MayStart(sorted: seq<Record>, start: nat) {
    && SortedByTag(sorted) && start <= |sorted| && (sorted != [] ==> start < |sorted|)
    && forall i :: 0 <= i < |sorted| ==> Gap(sorted, i) <= Gap(sorted, start)
  }

  /** However the records are sorted by tag, they come out in write order. */
  ghost predicate ReadRight(order: seq<Record>) {
    forall sorted, start :: MayStart(sorted, start) && multiset(sorted) == multiset(order) ==>
      Rotated(sorted, start) == order
  }

  /** Whatever the records held say and whichever of them survive, they are read in write order. */
  ghost predicate AlwaysRight(held: set<nat>) {
    forall numbers, order :: Survive(held, numbers) && Carry(order, numbers) ==> ReadRight(order)
  }

  /** No two numbers held share a virtual number, and no two are further than half the tag period apart. */
  ghost predicate Orderly(held: set<nat>) {
    forall m, n :: m in held && n in held && m < n ==> 0 < Virtual(n) - Virtual(m) <= MAX_ENTRIES
  }

  /** Closer than one tag period, as the numbers in a ring are. */
  ghost predicate WithinPeriod(held: set<nat>) {
    forall m, n :: m in held && n in held && m < n ==> Virtual(n) - Virtual(m) < TAG_PERIOD
  }

  /** The exact condition for write order to come back, over any number of wraps. */
  lemma AlwaysRightIff(held: set<nat>)
    requires WithinPeriod(held)
    ensures AlwaysRight(held) <==> Orderly(held)
  {
    if Orderly(held) {
      forall numbers, order | Survive(held, numbers) && Carry(order, numbers) ensures ReadRight(order) {
        SurvivorsRight(held, numbers, order);
      }
    } else {
      var m, n :| m in held && n in held && m < n && !(0 < Virtual(n) - Virtual(m) <= MAX_ENTRIES);
      PairWrong(m, n);
      assert Survive(held, [m, n]);
    }
  }

  function Virtuals(numbers: seq<nat>): (v: seq<nat>)
    ensures |v| == |numbers| && forall i :: 0 <= i < |v| ==> v[i] == Virtual(numbers[i])
  {
    if numbers == [] then [] else Virtuals(numbers[..|numbers| - 1]) + [Virtual(numbers[|numbers| - 1])]
  }

  lemma VirtualsInOrder(held: set<nat>, numbers: seq<nat>, order: seq<Record>)
    requires Orderly(held) && Survive(held, numbers) && Carry(order, numbers)
    ensures InOrder(order, Virtuals(numbers))
  {
    forall i | 0 <= i < |order| ensures order[i].tag == Tag(Virtual(numbers[i])) {
      TagOfVirtual(numbers[i]);
    }
  }

  lemma SurvivorsRight(held: set<nat>, numbers: seq<nat>, order: seq<Record>)
    requires Orderly(held) && Survive(held, numbers) && Carry(order, numbers)
    ensures ReadRight(order)
  {
    VirtualsInOrder(held, numbers, order);
    forall sorted, start | MayStart(sorted, start) && multiset(sorted) == multiset(order)
      ensures Rotated(sorted, start) == order
    {
      Recovered(order, Virtuals(numbers), sorted, start);
    }
  }

  // ------------------------------------------------------ two records that are read the wrong way round

  lemma PairWrong(m: nat, n: nat)
    requires m < n && Virtual(n) - Virtual(m) < TAG_PERIOD && !(0 < Virtual(n) - Virtual(m) <= MAX_ENTRIES)
    ensures exists order :: Carry(order, [m, n]) && !ReadRight(order)
  {
    VirtualGrows(m, n);
    TagOfVirtual(m);
    TagOfVirtual(n);
    var a, b := Record(Tag(m % U32), 0, 0, (0, 0)), Record(Tag(n % U32), 1, 0, (0, 0));
    assert Carry([a, b], [m, n]);
    TagsApart(Virtual(m), Virtual(n) - Virtual(m), Virtual(n));
    ReadBackwards(a, b);
  }

  lemma TagsApart(v: nat, d: nat, w: nat)
    requires d < TAG_PERIOD && w == v + d
    ensures Tag(w) == Tag(v) + d || Tag(w) == Tag(v) + d - TAG_PERIOD
  {
  }

  /** Equal tags, or tags whose shorter way round leads from the later record to the earlier one. */
  lemma ReadBackwards(a: Record, b: Record)
    requires a != b && 1 <= a.tag <= TAG_PERIOD && 1 <= b.tag <= TAG_PERIOD
    requires a.tag == b.tag || b.tag - a.tag > MAX_ENTRIES || 0 < a.tag - b.tag <= MAX_ENTRIES
    ensures !ReadRight([a, b])
  {
    if a.tag < b.tag {
      Backwards([a, b], [a, b], 1);
    } else {
      assert multiset([b, a]) == multiset([a, b]);
      Backwards([a, b], [b, a], 0);
    }
  }

  lemma Backwards(order: seq<Record>, sorted: seq<Record>, start: nat)
    requires |order| == 2 && |sorted| == 2 && start < 2 && order[0] != order[1]
    requires sorted[0].tag <= sorted[1].tag && sorted[start] == order[1] && multiset(sorted) == multiset(order)
    requires Gap(sorted, 1 - start) <= Gap(sorted, start)
    ensures !ReadRight(order)
  {
    assert forall i :: 0 <= i < 2 ==> Gap(sorted, i) == Gap(sorted, start) || Gap(sorted, i) == Gap(sorted, 1 - start);
    assert MayStart(sorted, start);
    assert Rotated(sorted, start)[0] == sorted[start];
  }

  // ------------------------------------------------------ what a ring holds

  /** The slot of record `n` in a ring of `size`. */
  function Slot(size: nat, n: nat): (slot: nat)
    requires size > 0
    ensures slot < size
  {
    Rem(n % U32, size)
  }

  /** Of the first `count` records, `n` is the last one in its slot. */
  ghost predicate Newest(size: nat, count: nat, n: nat)
    requires size > 0
  {
    n < count && forall l :: n < l < count ==> Slot(size, l) != Slot(size, n)
  }

  ghost function Held(size: nat, count: nat): set<nat>
    requires size > 0
  {
    set n | 0 <= n < count && Newest(size, count, n)
  }

  /** A slot is written again within two rounds, even across a wrap. */
  lemma SlotReused(size: nat, m: nat) returns (l: nat)
    requires 0 < size <= MAX_ENTRIES
    ensures m < l < m + 2 * size && Slot(size, l) == Slot(size, m)
  {
    var r := m % U32;
    if r + size < U32 {
      l := m + size;
      assert l % U32 == r + size;
      assert Rem(r + size, size) == Rem(r, size);
    } else {
      var slot := Rem(r, size);
      l := m + (U32 - r) + slot;
      AfterWrap(m, r, slot);
    }
  }

  lemma AfterWrap(m: nat, r: nat, slot: nat)
    requires r == m % U32 && slot < MAX_ENTRIES
    ensures (m + (U32 - r) + slot) % U32 == slot
  {
  }

  lemma HeldWithinPeriod(size: nat, count: nat)
    requires 0 < size <= MAX_ENTRIES
    ensures WithinPeriod(Held(size, count))
  {
    forall m, n | m in Held(size, count) && n in Held(size, count) && m < n
      ensures Virtual(n) - Virtual(m) < TAG_PERIOD
    {
      var l := SlotReused(size, m);
      VirtualGrows(m, n);
      assert n <= l;
    }
  }

  // ------------------------------------------------------ the condition in terms of geometry and count

  /** Until the first wrap, on it, and once a ring was filled again after one, order is kept; in between
      only if the ring's slots shift by no more than the records past the wrap and the ring is small. */
  predicate KeepsOrder(size: nat, count: nat)
    requires size > 0
  {
    var past, shift := count % U32, U32 % size;
    count < U32 || past == 0 || past >= size || (0 < shift <= past && size + shift - 2 <= MAX_ENTRIES)
  }

  /** For every ring and every number of records, whatever survives is read in write order exactly if
      `KeepsOrder` says so. */
  lemma RingRightIff(size: nat, count: nat)
    requires 0 < size <= MAX_ENTRIES
    ensures AlwaysRight(Held(size, count)) <==> KeepsOrder(size, count)
  {
    HeldWithinPeriod(size, count);
    AlwaysRightIff(Held(size, count));
    OrderlyIff(size, count);
  }

  lemma OrderlyIff(size: nat, count: nat)
    requires 0 < size <= MAX_ENTRIES
    ensures Orderly(Held(size, count)) <==> KeepsOrder(size, count)
  {
    var past := count % U32;
    if count < U32 || past == 0 || past >= size {
      var first := FirstOfBlock(size, count);
      OrderlyInOneBlock(size, first, count);
    } else {
      WrapBelow(count, past);
      OrderlyPastWrapIff(size, count - past, past, U32 % size);
    }
  }

  lemma WrapBelow(count: nat, past: nat)
    requires past == count % U32 && count >= U32
    ensures (count - past) % U32 == 0 && count - past > 0
  {
  }

  // ------------------------------------------------------ no wrap among the last records

  /** Numbers from `first` on, before the next wrap. */
  lemma InBlock(first: nat, j: nat)
    requires first % U32 + j < U32
    ensures (first + j) % U32 == first % U32 + j && (first + j) / U32 == first / U32
  {
  }

  /** A block of the ring's size without a wrap writes every slot. */
  lemma BlockCovers(size: nat, first: nat, slot: nat) returns (l: nat)
    requires 0 < size <= MAX_ENTRIES && first % U32 + size <= U32 && slot < size
    ensures first <= l < first + size && Slot(size, l) == slot
  {
    var f := first % U32;
    var r := Rem(f, size);
    var j := if r <= slot then slot - r else slot + size - r;
    InBlock(first, j);
    RemPlus(f, j, size);
    l := first + j;
  }

  lemma HeldInBlock(size: nat, first: nat, count: nat, n: nat)
    requires 0 < size <= MAX_ENTRIES && first % U32 + size <= U32 && first + size <= count && n in Held(size, count)
    ensures n >= first
  {
    var l := BlockCovers(size, first, Slot(size, n));
  }

  lemma VirtualInBlock(first: nat, m: nat, n: nat)
    requires first <= m < n && first % U32 + (n - first) < U32
    ensures Virtual(n) - Virtual(m) == n - m
  {
    InBlock(first, m - first);
    InBlock(first, n - first);
  }

  /** Then the ring holds the last records of its size, in one block. */
  lemma OrderlyInOneBlock(size: nat, first: nat, count: nat)
    requires 0 < size <= MAX_ENTRIES && first % U32 + size <= U32
    requires count == first + size || (count < first + size && first == 0)
    ensures Orderly(Held(size, count))
  {
    forall m, n | m in Held(size, count) && n in Held(size, count) && m < n
      ensures 0 < Virtual(n) - Virtual(m) <= MAX_ENTRIES
    {
      if count == first + size {
        HeldInBlock(size, first, count, m);
      }
      VirtualInBlock(first, m, n);
    }
  }

  lemma FirstOfBlock(size: nat, count: nat) returns (first: nat)
    requires 0 < size <= MAX_ENTRIES && (count < U32 || count % U32 == 0 || count % U32 >= size)
    ensures first % U32 + size <= U32
    ensures count == first + size || (count < first + size && first == 0)
  {
    first := if count < size then 0 else count - size;
  }

  // ------------------------------------------------------ a wrap among the last records

  lemma SlotBefore(size: nat, wrap: nat, k: nat)
    requires size > 0 && wrap % U32 == 0 && wrap > 0 && 1 <= k <= U32
    ensures k <= wrap && Slot(size, wrap - k) == Rem(U32 - k, size) && Virtual(wrap - k) == wrap - k - (wrap / U32 - 1)
  {
  }

  lemma SlotAfter(size: nat, wrap: nat, j: nat)
    requires size > 0 && wrap % U32 == 0 && j < size <= MAX_ENTRIES
    ensures Slot(size, wrap + j) == j && Virtual(wrap + j) == wrap + j - wrap / U32
  {
    InBlock(wrap, j);
  }

  /** The slots of the last records before a wrap. */
  lemma SlotShifted(size: nat, wrap: nat, shift: nat, j: nat)
    requires 0 < size <= MAX_ENTRIES && wrap % U32 == 0 && wrap > 0 && shift == U32 % size && j < size
    ensures size <= wrap && Slot(size, wrap - size + j) == if shift + j < size then shift + j else shift + j - size
  {
    RemIsMod(U32, size);
    SlotBefore(size, wrap, size - j);
    assert Rem(U32, size) == Rem(U32 - size, size);
    RemPlus(U32 - size, j, size);
    assert U32 - (size - j) == U32 - size + j;
  }

  lemma HeldAfterWrap(size: nat, wrap: nat, past: nat, j: nat)
    requires j < past < size <= MAX_ENTRIES && wrap % U32 == 0
    ensures wrap + j in Held(size, wrap + past)
  {
    forall l | wrap + j < l < wrap + past ensures Slot(size, l) != Slot(size, wrap + j) {
      SlotAfter(size, wrap, j);
      SlotAfter(size, wrap, l - wrap);
    }
  }

  lemma HeldBeforeWrap(size: nat, wrap: nat, past: nat, shift: nat, j: nat)
    requires past < size <= MAX_ENTRIES && wrap % U32 == 0 && wrap > 0 && shift == U32 % size
    requires j < size && past <= if shift + j < size then shift + j else shift + j - size
    ensures size <= wrap && wrap - size + j in Held(size, wrap + past)
  {
    SlotShifted(size, wrap, shift, j);
    var n := wrap - size + j;
    forall l | n < l < wrap + past ensures Slot(size, l) != Slot(size, n) {
      if l < wrap {
        SlotShifted(size, wrap, shift, l - (wrap - size));
      } else {
        SlotAfter(size, wrap, l - wrap);
      }
    }
  }

  /** What a ring holds just past a wrap: the records past it and, in the slots they left, older ones. */
  lemma HeldAcross(size: nat, wrap: nat, past: nat, n: nat)
    requires past < size <= MAX_ENTRIES && wrap % U32 == 0 && wrap > 0 && n in Held(size, wrap + past)
    ensures size <= wrap && wrap - size <= n < wrap + past && (n < wrap ==> Slot(size, n) >= past)
  {
    SlotBefore(size, wrap, size);
    HeldInBlock(size, wrap - size, wrap + past, n);
    SlotAfter(size, wrap, Slot(size, n));
  }

  /** Then it is orderly exactly if the last record before the wrap is gone and the ring is small for how far
      its slots shift. */
  lemma OrderlyPastWrapIff(size: nat, wrap: nat, past: nat, shift: nat)
    requires 0 < past < size <= MAX_ENTRIES && wrap % U32 == 0 && wrap > 0 && shift == U32 % size
    ensures Orderly(Held(size, wrap + past)) <==> 0 < shift <= past && size + shift - 2 <= MAX_ENTRIES
  {
    if shift == 0 || past < shift {
      TiedAcross(size, wrap, past, shift);
    } else if size + shift - 2 > MAX_ENTRIES {
      WideAcross(size, wrap, past, shift);
    } else {
      forall m, n | m in Held(size, wrap + past) && n in Held(size, wrap + past) && m < n
        ensures 0 < Virtual(n) - Virtual(m) <= MAX_ENTRIES
      {
        OrderlyAcross(size, wrap, past, shift, m, n);
      }
    }
  }

  lemma NotOrderly(held: set<nat>, m: nat, n: nat)
    requires m in held && n in held && m < n && !(0 < Virtual(n) - Virtual(m) <= MAX_ENTRIES)
    ensures !Orderly(held)
  {
  }

  /** Both records beside the wrap are held. */
  lemma TiedAcross(size: nat, wrap: nat, past: nat, shift: nat)
    requires 0 < past < size <= MAX_ENTRIES && wrap % U32 == 0 && wrap > 0 && shift == U32 % size
    requires shift == 0 || past < shift
    ensures !Orderly(Held(size, wrap + past))
  {
    HeldBeforeWrap(size, wrap, past, shift, size - 1);
    HeldAfterWrap(size, wrap, past, 0);
    SlotBefore(size, wrap, 1);
    SlotAfter(size, wrap, 0);
    NotOrderly(Held(size, wrap + past), wrap - 1, wrap);
  }

  /** The oldest and the newest record held are too far apart. */
  lemma WideAcross(size: nat, wrap: nat, past: nat, shift: nat)
    requires 0 < past < size <= MAX_ENTRIES && wrap % U32 == 0 && wrap > 0 && shift == U32 % size
    requires 0 < shift <= past && size + shift - 2 > MAX_ENTRIES
    ensures !Orderly(Held(size, wrap + past))
  {
    HeldBeforeWrap(size, wrap, past, shift, past - shift);
    HeldAfterWrap(size, wrap, past, past - 1);
    SlotBefore(size, wrap, size - (past - shift));
    SlotAfter(size, wrap, past - 1);
    NotOrderly(Held(size, wrap + past), wrap - size + (past - shift), wrap + (past - 1));
  }

  lemma OrderlyAcross(size: nat, wrap: nat, past: nat, shift: nat, m: nat, n: nat)
    requires past < size <= MAX_ENTRIES && wrap % U32 == 0 && wrap > 0 && shift == U32 % size
    requires 0 < shift <= past && size + shift - 2 <= MAX_ENTRIES
    requires m in Held(size, wrap + past) && n in Held(size, wrap + past) && m < n
    ensures 0 < Virtual(n) - Virtual(m) <= MAX_ENTRIES
  {
    HeldAcross(size, wrap, past, n);
    if m < wrap {
      LeftBeforeWrap(size, wrap, past, shift, m);
    } else {
      SlotAfter(size, wrap, m - wrap);
    }
    if n < wrap {
      LeftBeforeWrap(size, wrap, past, shift, n);
    } else {
      SlotAfter(size, wrap, n - wrap);
    }
  }

  /** The older records left are those the shift moved clear of the newer ones. */
  lemma LeftBeforeWrap(size: nat, wrap: nat, past: nat, shift: nat, m: nat)
    requires past < size <= MAX_ENTRIES && wrap % U32 == 0 && wrap > 0 && shift == U32 % size
    requires 0 < shift <= past && m in Held(size, wrap + past) && m < wrap
    ensures wrap + past <= m + size + shift && m + 2 <= wrap && m + size >= wrap
    ensures Virtual(m) == m - (wrap / U32 - 1)
  {
    HeldAcross(size, wrap, past, m);
    SlotBefore(size, wrap, wrap - m);
    SlotShifted(size, wrap, shift, m - (wrap - size));
  }

  // ------------------------------------------------------ two rings that are misread

  /** A ring of two, one record past the wrap: the two records have one tag. */
  lemma TiedPairMisread()
    ensures !AlwaysRight(Held(2, U32 + 1))
  {
    RingRightIff(2, U32 + 1);
  }

  /** The 704 older and 23296 newer records in a ring of 24000 that many past the wrap. */
  ghost predicate AllOf24000(numbers: seq<nat>) {
    && |numbers| == 24000
    && forall i :: 0 <= i < 24000 ==> numbers[i] == if i < 704 then U32 - 24000 + i else U32 + i - 704
  }

  lemma TagsOf24000(order: seq<Record>, numbers: seq<nat>)
    requires AllOf24000(numbers) && Carry(order, numbers)
    ensures forall i :: 0 <= i < 24000 ==> order[i].tag == if i < 704 then 41537 + i else i - 703
  {
  }

  lemma HeldOf24000(numbers: seq<nat>)
    requires AllOf24000(numbers)
    ensures Survive(Held(24000, U32 + 23296), numbers)
  {
    forall i | 0 <= i < 24000 ensures numbers[i] in Held(24000, U32 + 23296) {
      if i < 704 {
        HeldBeforeWrap(24000, U32, 23296, 23296, i);
      } else {
        HeldAfterWrap(24000, U32, 23296, i - 704);
      }
    }
  }

  /** All tags differ, nothing is lost, and the newer records are read first: their tags lie behind the
      widest gap. */
  lemma NewerReadFirst(order: seq<Record>, numbers: seq<nat>)
    requires AllOf24000(numbers) && Carry(order, numbers)
    ensures Survive(Held(24000, U32 + 23296), numbers)
    ensures forall i, j :: 0 <= i < j < 24000 ==> order[i].tag != order[j].tag
    ensures MayStart(Rotated(order, 704), 0) && Rotated(Rotated(order, 704), 0) == order[704..] + order[..704]
    ensures !ReadRight(order)
  {
    HeldOf24000(numbers);
    TagsOf24000(order, numbers);
    var sorted := Rotated(order, 704);
    RotatedMultiset(order, 704);
    SortedOf24000(order, sorted);
    assert Rotated(sorted, 0) == sorted;
    assert sorted[0] == order[704];
  }

  lemma SortedOf24000(order: seq<Record>, sorted: seq<Record>)
    requires |order| == 24000 && sorted == Rotated(order, 704)
    requires forall i :: 0 <= i < 24000 ==> order[i].tag == if i < 704 then 41537 + i else i - 703
    ensures MayStart(sorted, 0)
  {
    assert forall i :: 0 <= i < 24000 ==> sorted[i] == order[if i < 23296 then i + 704 else i - 23296];
    assert forall i :: 0 <= i < 24000 ==> sorted[i].tag == if i < 23296 then i + 1 else i + 18241;
  }
}
