/**
 Reading a ring whose entry number `s` lies in slot `s` modulo its size: storage order gives what write
 order gives, rotated. `read` says what a reader gets from an entry, which may be nothing.
 */
module RingOrder {
  import opened Arithmetic

  /** What the entries read as, in storage order. */
  function Gather<E, R>(read: E -> seq<R>, entries: seq<E>): seq<R> {
    if entries == [] then [] else read(entries[0]) + Gather(read, entries[1..])
  }

  /** What the entries numbered `from..end` read as, in write order. */
  function Numbered<E, R>(read: E -> seq<R>, ring: seq<E>, from: nat, end: nat): seq<R>
    requires ring != [] && from <= end
  {
    if from == end then [] else Numbered(read, ring, from, end - 1) + read(ring[Rem(end - 1, |ring|)])
  }

  lemma {:induction false} GatherConcat<E, R>(read: E -> seq<R>, a: seq<E>, b: seq<E>)
    ensures Gather(read, a + b) == Gather(read, a) + Gather(read, b)
    decreases |a|
  {
    if a == [] {
      assert a + b == b;
    } else {
      assert (a + b)[1..] == a[1..] + b;
      GatherConcat(read, a[1..], b);
      assert read(a[0]) + (Gather(read, a[1..]) + Gather(read, b)) ==
             (read(a[0]) + Gather(read, a[1..])) + Gather(read, b);
    }
  }

  lemma GatherOne<E, R>(read: E -> seq<R>, e: E)
    ensures Gather(read, [e]) == read(e)
  {
    assert [e][1..] == [];
    assert read(e) + [] == read(e);
  }

  lemma {:induction false} GatherNothing<E, R>(read: E -> seq<R>, entries: seq<E>)
    requires forall i :: 0 <= i < |entries| ==> read(entries[i]) == []
    ensures Gather(read, entries) == []
  {
    if entries != [] {
      GatherNothing(read, entries[1..]);
    }
  }

  lemma GatherNext<E, R>(read: E -> seq<R>, entries: seq<E>, lo: nat, hi: nat)
    requires lo <= hi < |entries|
    ensures Gather(read, entries[lo..hi + 1]) == Gather(read, entries[lo..hi]) + read(entries[hi])
  {
    assert entries[lo..hi + 1] == entries[lo..hi] + [entries[hi]];
    GatherConcat(read, entries[lo..hi], [entries[hi]]);
    GatherOne(read, entries[hi]);
  }

  lemma Halves<T>(s: seq<T>, at: nat)
    requires at <= |s|
    ensures s[0..at] + s[at..|s|] == s
  {
  }

  lemma GatherSplit<E, R>(read: E -> seq<R>, entries: seq<E>, at: nat)
    requires at <= |entries|
    ensures Gather(read, entries) == Gather(read, entries[0..at]) + Gather(read, entries[at..|entries|])
  {
    Halves(entries, at);
    GatherConcat(read, entries[0..at], entries[at..|entries|]);
  }

  lemma {:induction false} NumberedSplit<E, R>(read: E -> seq<R>, ring: seq<E>, from: nat, mid: nat, end: nat)
    requires ring != [] && from <= mid <= end
    ensures Numbered(read, ring, from, end) == Numbered(read, ring, from, mid) + Numbered(read, ring, mid, end)
    decreases end
  {
    if mid < end {
      NumberedSplit(read, ring, from, mid, end - 1);
    }
  }

  lemma SlotAhead(from: nat, k: nat, d: nat, lo: nat, s: nat, slot: nat)
    requires d > 0 && lo == Rem(from, d) && s == from + k && slot == lo + k < d
    ensures Rem(s, d) == slot
  {
    RemPlus(from, k, d);
  }

  /** Numbers that do not pass the end of the ring lie side by side in it. */
  lemma {:induction false} NumberedInSlots<E, R>(read: E -> seq<R>, ring: seq<E>, from: nat, count: nat, lo: nat)
    requires ring != [] && lo == Rem(from, |ring|) && lo + count <= |ring|
    ensures Numbered(read, ring, from, from + count) == Gather(read, ring[lo..lo + count])
    decreases count
  {
    if count == 0 {
      assert ring[lo..lo] == [];
    } else {
      var k := count - 1;
      NumberedInSlots(read, ring, from, k, lo);
      SlotAhead(from, k, |ring|, lo, from + k, lo + k);
      GatherNext(read, ring, lo, lo + k);
    }
  }

  lemma {:induction false} RemBack(n: nat, d: nat)
    requires 0 < d <= n
    ensures Rem(n, d) <= n && Rem(n - Rem(n, d), d) == 0 && Rem(n - d, d) == Rem(n, d)
  {
    if n >= 2 * d {
      RemBack(n - d, d);
    }
  }

  /** Where the newest `d` of `n` numbers start, where they pass the end of the ring, and in which slot they
      start. */
  lemma Seam(n: nat, d: nat) returns (start: nat, mid: nat, r: nat)
    requires 0 < d <= n
    ensures start == n - d && r == Rem(start, d) && r < d && mid == start + (d - r) && n == mid + r && Rem(mid, d) == 0
  {
    RemBack(n, d);
    start, r := n - d, Rem(n, d);
    mid := n - r;
  }

  /** Until the ring is full, storage order is write order. */
  lemma SameWhileFilling<E, R>(read: E -> seq<R>, ring: seq<E>, n: nat)
    requires n < |ring| && forall i :: n <= i < |ring| ==> read(ring[i]) == []
    ensures Numbered(read, ring, 0, n) == Gather(read, ring)
  {
    NumberedInSlots(read, ring, 0, n, 0);
    GatherSplit(read, ring, n);
    GatherNothing(read, ring[n..|ring|]);
  }

  /** Once it is full, the newest records are read in storage order as in write order, rotated. */
  lemma SameWhenFull<E, R>(read: E -> seq<R>, ring: seq<E>, n: nat)
    requires 0 < |ring| <= n
    ensures multiset(Numbered(read, ring, n - |ring|, n)) == multiset(Gather(read, ring))
  {
    var start, mid, r := Seam(n, |ring|);
    RotatedAt(read, ring, start, mid, n, r);
  }

  lemma NumberedBetween<E, R>(read: E -> seq<R>, ring: seq<E>, from: nat, end: nat, lo: nat, hi: nat)
    requires ring != [] && from <= end && lo == Rem(from, |ring|) && hi == lo + (end - from) <= |ring|
    ensures Numbered(read, ring, from, end) == Gather(read, ring[lo..hi])
  {
    NumberedInSlots(read, ring, from, end - from, lo);
  }

  lemma RotatedAt<E, R>(read: E -> seq<R>, ring: seq<E>, start: nat, mid: nat, end: nat, r: nat)
    requires ring != [] && r == Rem(start, |ring|) && Rem(mid, |ring|) == 0
    requires mid == start + (|ring| - r) && end == mid + r
    ensures multiset(Numbered(read, ring, start, end)) == multiset(Gather(read, ring))
  {
    NumberedBetween(read, ring, start, mid, r, |ring|);
    NumberedBetween(read, ring, mid, end, 0, r);
    NumberedSplit(read, ring, start, mid, end);
    GatherSplit(read, ring, r);
    Swapped(Gather(read, ring[r..|ring|]), Gather(read, ring[0..r]));
  }

  lemma Swapped<R>(a: seq<R>, b: seq<R>)
    ensures multiset(a + b) == multiset(b + a)
  {
  }

  /** However many numbers there were, storage order reads the newest that write order reads. */
  lemma SameRead<E, R>(read: E -> seq<R>, ring: seq<E>, n: nat, oldest: nat)
    requires ring != [] && oldest == (if n < |ring| then 0 else n - |ring|)
    requires forall i :: n <= i < |ring| ==> read(ring[i]) == []
    ensures multiset(Numbered(read, ring, oldest, n)) == multiset(Gather(read, ring))
  {
    if n < |ring| {
      SameWhileFilling(read, ring, n);
    } else {
      SameWhenFull(read, ring, n);
    }
  }
}
