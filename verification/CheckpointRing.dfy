/**
 The ring of checkpoints of `hil/agent/src/postmortem.rs`, whatever its entries are and however they
 decode: it holds the last entries written and is read oldest first.
 */
module CheckpointRing {
  import opened Wrappers

  /** POST_MORTEM_CHECKPOINTS. */
  const CAPACITY: nat := 32

  /** Where the next entry goes. */
  function Slot(head: nat): (slot: nat)
    ensures slot < CAPACITY
  {
    head % CAPACITY
  }

  /** Where the oldest of `len` entries is. */
  function Oldest(head: nat, len: nat): (slot: nat)
    requires len <= CAPACITY
    ensures slot < CAPACITY
  {
    (head + CAPACITY - len) % CAPACITY
  }

  /** The decoded entries at `first`, `first + 1`, ... around the ring, up to `n` of them. */
  function Read<T, D>(decode: T -> Option<D>, ring: seq<T>, first: nat, n: nat): seq<D>
    requires |ring| == CAPACITY
  {
    if n == 0 then []
    else
      var last := decode(ring[(first + n - 1) % CAPACITY]);
      Read(decode, ring, first, n - 1) + if last.Some? then [last.value] else []
  }

  method ReadBack<T, D>(decode: T -> Option<D>, ring: seq<T>, first: nat, len: nat) returns (kept: seq<D>)
    requires |ring| == CAPACITY
    ensures kept == Read(decode, ring, first, len)
  {
    kept := [];
    for offset := 0 to len
      invariant kept == Read(decode, ring, first, offset)
    {
      var decoded := decode(ring[(first + offset) % CAPACITY]);
      if decoded.Some? {
        kept := kept + [decoded.value];
      }
    }
  }

  /** The last `n` of `xs`, or all. */
  function Last<T>(xs: seq<T>, n: nat): seq<T> {
    if |xs| < n then xs else xs[|xs| - n..]
  }

  function Filled(n: nat): nat {
    if n < CAPACITY then n else CAPACITY
  }

  /** The ring holds the last of `marks`, each in the slot of its number. */
  ghost predicate Holds<T, D>(decode: T -> Option<D>, ring: seq<T>, marks: seq<D>) {
    |ring| == CAPACITY &&
    forall k :: |marks| - Filled(|marks|) <= k < |marks| ==> decode(ring[k % CAPACITY]) == Some(marks[k])
  }

  lemma OtherSlot(k: nat, n: nat)
    requires k < n < k + CAPACITY
    ensures k % CAPACITY != n % CAPACITY
  {
  }

  lemma Written<T, D>(decode: T -> Option<D>, ring: seq<T>, marks: seq<D>, slot: nat, raw: T, mark: D)
    requires Holds(decode, ring, marks) && slot == |marks| % CAPACITY && decode(raw) == Some(mark)
    ensures Holds(decode, ring[slot := raw], marks + [mark])
  {
    var n := |marks|;
    var next := ring[slot := raw];
    forall k | n + 1 - Filled(n + 1) <= k < n + 1 ensures decode(next[k % CAPACITY]) == Some((marks + [mark])[k]) {
      if k < n {
        OtherSlot(k, n);
      }
    }
  }

  lemma SlotOfHead(n: nat, head: nat)
    requires head == n % CAPACITY
    ensures Slot(head) == head && Slot(Slot(head) + 1) == (n + 1) % CAPACITY
  {
  }

  lemma SameSlot(start: nat, n: nat)
    ensures (start % CAPACITY + n) % CAPACITY == (start + n) % CAPACITY
  {
  }

  lemma {:induction false} ReadsFrom<T, D>(decode: T -> Option<D>, ring: seq<T>, marks: seq<D>, start: nat, n: nat)
    requires Holds(decode, ring, marks) && start == |marks| - Filled(|marks|) && n <= Filled(|marks|)
    ensures Read(decode, ring, start % CAPACITY, n) == marks[start..start + n]
  {
    if n > 0 {
      ReadsFrom(decode, ring, marks, start, n - 1);
      SameSlot(start, n - 1);
      assert marks[start..start + n] == marks[start..start + n - 1] + [marks[start + n - 1]];
    }
  }

  /** Of the `n` marks from `start` on, those whose slot still decodes. */
  function Surviving<T, D>(decode: T -> Option<D>, ring: seq<T>, marks: seq<D>, start: nat, n: nat): seq<D>
    requires |ring| == CAPACITY && start + n <= |marks|
  {
    if n == 0 then []
    else
      Surviving(decode, ring, marks, start, n - 1)
      + if decode(ring[(start + n - 1) % CAPACITY]).Some? then [marks[start + n - 1]] else []
  }

  /** Of the last marks, those whose slot still decodes. */
  function Survivors<T, D>(decode: T -> Option<D>, ring: seq<T>, marks: seq<D>): seq<D>
    requires |ring| == CAPACITY
  {
    Surviving(decode, ring, marks, |marks| - Filled(|marks|), Filled(|marks|))
  }

  /** Every entry is as it was or no longer decodes. */
  ghost predicate Damaged<T, D>(decode: T -> Option<D>, ring: seq<T>, damaged: seq<T>) {
    |damaged| == |ring| && forall i :: 0 <= i < |ring| ==> damaged[i] == ring[i] || decode(damaged[i]) == None
  }

  /** Damage to some entries loses those and changes no other. */
  lemma {:induction false} ReadsSurvivors<T, D>(decode: T -> Option<D>, ring: seq<T>, damaged: seq<T>, marks: seq<D>,
                                                start: nat, n: nat)
    requires Holds(decode, ring, marks) && Damaged(decode, ring, damaged)
    requires start == |marks| - Filled(|marks|) && n <= Filled(|marks|)
    ensures Read(decode, damaged, start % CAPACITY, n) == Surviving(decode, damaged, marks, start, n)
  {
    if n > 0 {
      ReadsSurvivors(decode, ring, damaged, marks, start, n - 1);
      SameSlot(start, n - 1);
    }
  }

  lemma OldestSlot(n: nat)
    ensures Oldest(n % CAPACITY, Filled(n)) == (n - Filled(n)) % CAPACITY
  {
    if n < CAPACITY {
      assert Oldest(n % CAPACITY, Filled(n)) == CAPACITY % CAPACITY;
    } else {
      OneRoundBack(n);
      SlotTwice(n);
    }
  }

  lemma OneRoundBack(n: nat)
    requires n >= CAPACITY
    ensures (n - CAPACITY) % CAPACITY == n % CAPACITY
  {
  }

  lemma SlotTwice(n: nat)
    ensures n % CAPACITY % CAPACITY == n % CAPACITY
  {
  }

  lemma ReadsRest<T, D>(decode: T -> Option<D>, ring: seq<T>, damaged: seq<T>, marks: seq<D>, head: nat, len: nat)
    requires Holds(decode, ring, marks) && Damaged(decode, ring, damaged) && head == |marks| % CAPACITY
    requires len == Filled(|marks|)
    ensures Read(decode, damaged, Oldest(head, len), len) == Survivors(decode, damaged, marks)
  {
    OldestSlot(|marks|);
    ReadsSurvivors(decode, ring, damaged, marks, |marks| - len, len);
  }

  /** Read from its oldest entry, the ring gives the last marks in order. */
  lemma ReadsLast<T, D>(decode: T -> Option<D>, ring: seq<T>, marks: seq<D>, head: nat, len: nat)
    requires Holds(decode, ring, marks) && head == |marks| % CAPACITY && len == Filled(|marks|)
    ensures Read(decode, ring, Oldest(head, len), len) == Last(marks, CAPACITY)
  {
    OldestSlot(|marks|);
    ReadsFrom(decode, ring, marks, |marks| - Filled(|marks|), Filled(|marks|));
  }
}
