/**
 The retained ring over runs of any length (`record` in `crates/trace/src/store.rs`): every slot holds the
 last record written to it, and what can be read of it are the records held, under their own numbers.
 */
module TraceRing {
  import opened Arithmetic
  import opened TraceOrder
  import opened TraceStore
  import opened TraceWrap
  import RingOrder
  import Sorting

  /** Each slot holds the last of `log` that went there, or nothing. */
  ghost predicate RingOf(entries: seq<Entry>, log: seq<Body>) {
    && |entries| > 0
    && (forall n: nat :: Newest(|entries|, |log|, n) ==> entries[Slot(|entries|, n)] == Written(log[n], n % U32))
    && (forall i :: 0 <= i < |entries| && entries[i].commit != 0 ==> Occupied(|entries|, |log|, i))
  }

  ghost predicate Occupied(size: nat, count: nat, slot: nat)
    requires size > 0
  {
    exists n: nat :: Newest(size, count, n) && Slot(size, n) == slot
  }

  lemma RingGrows(entries: seq<Entry>, log: seq<Body>, body: Body)
    requires RingOf(entries, log)
    ensures RingOf(entries[Slot(|entries|, |log|) := Written(body, |log| % U32)], log + [body])
  {
    var d, n := |entries|, |log|;
    var slot := Slot(d, n);
    var now := entries[slot := Written(body, n % U32)];
    forall m: nat | Newest(d, n + 1, m) ensures now[Slot(d, m)] == Written((log + [body])[m], m % U32) {
      if m < n {
        assert Slot(d, n) != Slot(d, m);
        assert Newest(d, n, m);
      }
    }
    forall i | 0 <= i < d && now[i].commit != 0 ensures Occupied(d, n + 1, i) {
      StillOccupied(d, n, i);
    }
  }

  lemma StillOccupied(size: nat, count: nat, slot: nat)
    requires size > 0
    ensures slot == Slot(size, count) || Occupied(size, count, slot) ==> Occupied(size, count + 1, slot)
  {
    assert Newest(size, count + 1, count);
    if slot != Slot(size, count) && Occupied(size, count, slot) {
      var n: nat :| Newest(size, count, n) && Slot(size, n) == slot;
      assert Newest(size, count + 1, n);
    }
  }

  lemma SlotBeforeWrap(size: nat, n: nat)
    requires size > 0 && n < U32
    ensures Slot(size, n) == Rem(n, size) && n % U32 == n
  {
  }

  lemma NewestBeforeWrap(size: nat, count: nat, s: nat)
    requires size > 0 && count - size <= s < count <= U32
    ensures Newest(size, count, s)
  {
    forall l | s < l < count ensures Slot(size, l) != Slot(size, s) {
      SlotBeforeWrap(size, s);
      SlotBeforeWrap(size, l);
      RemDistinct(s, l, size);
    }
  }

  lemma NotOccupied(size: nat, count: nat, slot: nat)
    requires count <= slot < size && count <= U32
    ensures !Occupied(size, count, slot)
  {
    forall n: nat | n < count ensures Slot(size, n) != slot {
      SlotBeforeWrap(size, n);
    }
  }

  lemma HoldsBeforeWrap(entries: seq<Entry>, log: seq<Body>, s: nat)
    requires RingOf(entries, log) && |log| - |entries| <= s < |log| <= U32
    ensures entries[Rem(s, |entries|)] == Written(log[s], s)
  {
    NewestBeforeWrap(|entries|, |log|, s);
    SlotBeforeWrap(|entries|, s);
    assert entries[Slot(|entries|, s)] == Written(log[s], s % U32);
  }

  /** Up to the first wrap these are the newest records, side by side. */
  lemma RingBeforeWrap(entries: seq<Entry>, log: seq<Body>)
    requires RingOf(entries, log) && |log| <= U32
    ensures RingHolds(entries, log)
  {
    forall i | |log| <= i < |entries| ensures entries[i].commit == 0 {
      NotOccupied(|entries|, |log|, i);
    }
    forall s: nat | |log| - |entries| <= s < |log| ensures entries[Rem(s, |entries|)] == Written(log[s], s) {
      HoldsBeforeWrap(entries, log, s);
    }
  }

  // ------------------------------------------------------ what is read

  /** The records of `log` with these numbers. */
  function Records(log: seq<Body>, numbers: seq<nat>): (records: seq<Record>)
    requires forall i :: 0 <= i < |numbers| ==> numbers[i] < |log|
    ensures |records| == |numbers|
    ensures forall i :: 0 <= i < |numbers| ==> records[i] == RecordOf(log[numbers[i]], numbers[i] % U32)
  {
    if numbers == [] then []
    else Records(log, numbers[..|numbers| - 1]) + [RecordOf(log[numbers[|numbers| - 1]], numbers[|numbers| - 1] % U32)]
  }

  /** `found` are the numbers read from the first `k` slots. */
  ghost predicate Found(after: seq<Entry>, log: seq<Body>, k: nat, found: seq<nat>) {
    && 0 < |after| && k <= |after|
    && (forall i :: 0 <= i < |found| ==> Newest(|after|, |log|, found[i]) && Slot(|after|, found[i]) < k)
    && (forall i, j :: 0 <= i < j < |found| ==> Slot(|after|, found[i]) < Slot(|after|, found[j]))
    && Collect(after[..k]) == Records(log, found)
  }

  lemma {:induction false} FindAll(entries: seq<Entry>, after: seq<Entry>, log: seq<Body>, k: nat)
    returns (found: seq<nat>)
    requires RingOf(entries, log) && Torn(entries, after) && k <= |after|
    ensures Found(after, log, k, found)
  {
    found := [];
    if k == 0 {
      assert after[..0] == [];
    } else {
      found := FindAll(entries, after, log, k - 1);
      CollectNext(after, k);
      if after[k - 1].commit == 0 {
        FoundNone(after, log, k, found);
      } else {
        var n: nat :| Newest(|after|, |log|, n) && Slot(|after|, n) == k - 1;
        FoundOne(after, log, k, found, n);
        found := found + [n];
      }
    }
  }

  lemma CollectNext(after: seq<Entry>, k: nat)
    requires 0 < k <= |after|
    ensures Collect(after[..k]) == Collect(after[..k - 1]) + Readable(after[k - 1])
  {
    RingOrder.GatherNext(Readable, after, 0, k - 1);
    assert after[..k] == after[0..k - 1 + 1] && after[..k - 1] == after[0..k - 1];
  }

  lemma FoundNone(after: seq<Entry>, log: seq<Body>, k: nat, found: seq<nat>)
    requires 0 < k <= |after| && Found(after, log, k - 1, found) && after[k - 1].commit == 0
    requires Collect(after[..k]) == Collect(after[..k - 1]) + Readable(after[k - 1])
    ensures Found(after, log, k, found)
  {
    assert Records(log, found) + [] == Records(log, found);
  }

  lemma FoundOne(after: seq<Entry>, log: seq<Body>, k: nat, found: seq<nat>, n: nat)
    requires 0 < k <= |after| && Found(after, log, k - 1, found)
    requires Newest(|after|, |log|, n) && Slot(|after|, n) == k - 1 && after[k - 1] == Written(log[n], n % U32)
    requires Collect(after[..k]) == Collect(after[..k - 1]) + Readable(after[k - 1])
    ensures Found(after, log, k, found + [n])
  {
    ReadableWritten(log[n], n % U32);
    assert (found + [n])[..|found|] == found;
  }

  predicate Less(a: nat, b: nat) {
    a < b
  }

  lemma {:induction false} SameRecordsOf(log: seq<Body>, a: seq<nat>, b: seq<nat>)
    requires multiset(a) == multiset(b) && forall i :: 0 <= i < |a| ==> a[i] < |log|
    requires forall i :: 0 <= i < |b| ==> b[i] < |log|
    ensures multiset(Records(log, a)) == multiset(Records(log, b))
    decreases |a|
  {
    Sorting.SameLength(a, b);
    if a != [] {
      var last := |a| - 1;
      assert a[last] in multiset(b);
      var i :| 0 <= i < |b| && b[i] == a[last];
      Sorting.WithoutOne(a, last);
      Sorting.WithoutOne(b, i);
      SameRecordsOf(log, a[..last] + a[last + 1..], b[..i] + b[i + 1..]);
      RecordsWithout(log, a, last);
      RecordsWithout(log, b, i);
    }
  }

  lemma RecordsWithout(log: seq<Body>, b: seq<nat>, i: nat)
    requires i < |b| && forall k :: 0 <= k < |b| ==> b[k] < |log|
    ensures var rest := b[..i] + b[i + 1..];
            (forall k :: 0 <= k < |rest| ==> rest[k] < |log|) &&
            multiset(Records(log, b)) == multiset(Records(log, rest)) + multiset{RecordOf(log[b[i]], b[i] % U32)}
  {
    Sorting.DroppedOne(Records(log, b), Records(log, b[..i] + b[i + 1..]), i);
  }

  /** What storage order reads are records held, each once, under increasing numbers once sorted. */
  lemma ReadsHeld(entries: seq<Entry>, after: seq<Entry>, log: seq<Body>) returns (numbers: seq<nat>)
    requires RingOf(entries, log) && Torn(entries, after)
    ensures Survive(TraceWrap.Held(|entries|, |log|), numbers)
    ensures (forall i :: 0 <= i < |numbers| ==> numbers[i] < |log|) && Carry(Records(log, numbers), numbers)
    ensures multiset(Records(log, numbers)) == multiset(Collect(after))
  {
    var found := FindAll(entries, after, log, |after|);
    assert after[..|after|] == after;
    numbers := Sorting.Sort(Less, found);
    SortedNumbers(found, numbers, |after|);
    SameRecordsOf(log, numbers, found);
  }

  lemma SortedNumbers(found: seq<nat>, numbers: seq<nat>, size: nat)
    requires size > 0 && numbers == Sorting.Sort(Less, found)
    requires forall i, j :: 0 <= i < j < |found| ==> Slot(size, found[i]) < Slot(size, found[j])
    ensures Increasing(numbers) && forall i :: 0 <= i < |numbers| ==> numbers[i] in found
  {
    Sorting.SortOrdered(Less, found);
    Sorting.SameMembers(numbers, found);
    assert forall i, j :: 0 <= i < j < |numbers| ==> Less(numbers[i], numbers[j]);
  }
}
