/**
 `oldest_first` of `crates/trace/src/store.rs`: tags repeat every 65535 records and say nothing of when a ring
 started over, but in a ring of at most half that many entries only one gap between neighbouring tags
 is wide, and the oldest record follows it.
 */
module TraceOrder {
  import Sorting

  const TAG_PERIOD := 0xffff
  /** Half the tag period: the most entries a geometry may have. */
  const MAX_ENTRIES := TAG_PERIOD / 2

  /** The sequence counts modulo this. */
  const U32: nat := 0x1_0000_0000

  function Tag(sequence: nat): (t: nat)
    ensures 1 <= t <= TAG_PERIOD
  {
    sequence % TAG_PERIOD + 1
  }

  datatype Record = Record(tag: nat, kind: nat, tUs: nat, words: (nat, nat))

  /** `records` were written in this order with these sequence numbers, within one ring. */
  ghost predicate InOrder(records: seq<Record>, sequences: seq<nat>) {
    && |records| == |sequences|
    && (forall i :: 0 <= i < |records| ==> records[i].tag == Tag(sequences[i]))
    && (forall i, j :: 0 <= i < j < |sequences| ==> sequences[i] < sequences[j])
    && (sequences != [] ==> sequences[|sequences| - 1] - sequences[0] <= MAX_ENTRIES)
  }

  ghost predicate SortedByTag(s: seq<Record>) {
    forall i, j :: 0 <= i < j < |s| ==> s[i].tag <= s[j].tag
  }

  ghost predicate StrictByTag(s: seq<Record>) {
    forall i, j :: 0 <= i < j < |s| ==> s[i].tag < s[j].tag
  }

  // ------------------------------------------------------ sorting

  predicate ByTag(a: Record, b: Record) {
    a.tag < b.tag
  }

  ghost predicate AtLeast(s: seq<Record>, low: nat) {
    forall i :: 0 <= i < |s| ==> s[i].tag >= low
  }

  lemma Prepended(first: Record, s: seq<Record>, low: nat)
    requires SortedByTag(s) && AtLeast(s, first.tag) && first.tag >= low
    ensures SortedByTag([first] + s) && AtLeast([first] + s, low)
  {
  }

  lemma {:induction false} InsertSorted(r: Record, s: seq<Record>, low: nat)
    requires SortedByTag(s) && AtLeast(s, low) && r.tag >= low
    ensures SortedByTag(Sorting.Insert(ByTag, r, s)) && AtLeast(Sorting.Insert(ByTag, r, s), low)
    decreases |s|
  {
    if s == [] || r.tag < s[0].tag {
      Prepended(r, s, low);
    } else {
      InsertSorted(r, s[1..], s[0].tag);
      Prepended(s[0], Sorting.Insert(ByTag, r, s[1..]), low);
    }
  }

  lemma {:induction false} SortSorts(s: seq<Record>)
    ensures SortedByTag(Sorting.Sort(ByTag, s))
    decreases |s|
  {
    if s != [] {
      SortSorts(s[..|s| - 1]);
      InsertSorted(s[|s| - 1], Sorting.Sort(ByTag, s[..|s| - 1]), 0);
    }
  }

  lemma SameHead(s: seq<Record>, t: seq<Record>)
    requires SortedByTag(s) && StrictByTag(t) && multiset(s) == multiset(t) && s != [] && t != []
    ensures s[0] == t[0]
  {
    assert s[0] in multiset(t) && t[0] in multiset(s);
    var k :| 0 <= k < |t| && t[k] == s[0];
    var l :| 0 <= l < |s| && s[l] == t[0];
    assert s[0].tag <= s[l].tag;
  }

  lemma TailMultiset(s: seq<Record>)
    requires s != []
    ensures multiset(s[1..]) == multiset(s) - multiset{s[0]}
  {
    assert s == [s[0]] + s[1..];
  }

  /** Distinct tags have one sorted arrangement. */
  lemma {:induction false} SortedUnique(s: seq<Record>, t: seq<Record>)
    requires SortedByTag(s) && StrictByTag(t) && multiset(s) == multiset(t)
    ensures s == t
    decreases |s|
  {
    Sorting.SameLength(s, t);
    if s != [] {
      SameHead(s, t);
      TailMultiset(s);
      TailMultiset(t);
      SortedUnique(s[1..], t[1..]);
      assert s == [s[0]] + s[1..] && t == [t[0]] + t[1..];
    }
  }

  // ------------------------------------------------------ where the tags wrap

  /** The index of the first record whose sequence is in the next tag period; 0 if none. */
  function Wrap(sequences: seq<nat>, i: nat): (j: nat)
    requires i < |sequences|
    ensures j < |sequences|
    ensures j == 0 ==> forall k :: i <= k < |sequences| ==> sequences[k] / TAG_PERIOD == sequences[0] / TAG_PERIOD
    ensures j != 0 ==> j >= i && sequences[j] / TAG_PERIOD != sequences[0] / TAG_PERIOD
                       && forall k :: i <= k < j ==> sequences[k] / TAG_PERIOD == sequences[0] / TAG_PERIOD
    decreases |sequences| - i
  {
    if i > 0 && sequences[i] / TAG_PERIOD != sequences[0] / TAG_PERIOD then i
    else if i + 1 == |sequences| then 0
    else Wrap(sequences, i + 1)
  }

  /** Tags run with the sequence up to the wrap and start over after it. */
  lemma TagForm(sequences: seq<nat>, i: nat)
    requires i < |sequences|
    requires forall i, j :: 0 <= i < j < |sequences| ==> sequences[i] < sequences[j]
    requires sequences[|sequences| - 1] - sequences[0] <= MAX_ENTRIES
    ensures var j := Wrap(sequences, 0);
            var base := (sequences[0] / TAG_PERIOD) * TAG_PERIOD;
            Tag(sequences[i]) == sequences[i] - base - (if j != 0 && i >= j then TAG_PERIOD else 0) + 1
  {
    var j := Wrap(sequences, 0);
    var first, s := sequences[0], sequences[i];
    assert first <= s < first + TAG_PERIOD;
    assert s / TAG_PERIOD == first / TAG_PERIOD || s / TAG_PERIOD == first / TAG_PERIOD + 1;
    if j != 0 && i >= j {
      assert sequences[j] <= s && sequences[j] / TAG_PERIOD != first / TAG_PERIOD;
      assert first < sequences[j];
      assert s / TAG_PERIOD == first / TAG_PERIOD + 1;
    }
  }

  /** The tags of `order`, whose sequence starts over at `wrap` unless that is 0. */
  ghost predicate Tagged(order: seq<Record>, sequences: seq<nat>, wrap: nat, base: nat) {
    && |order| == |sequences|
    && forall i :: 0 <= i < |order| ==>
         order[i].tag == sequences[i] - base - (if wrap != 0 && i >= wrap then TAG_PERIOD else 0) + 1
  }

  lemma TagsOf(order: seq<Record>, sequences: seq<nat>) returns (base: nat)
    requires InOrder(order, sequences) && order != []
    ensures Tagged(order, sequences, Wrap(sequences, 0), base)
  {
    base := (sequences[0] / TAG_PERIOD) * TAG_PERIOD;
    var wrap := Wrap(sequences, 0);
    forall i | 0 <= i < |order|
      ensures order[i].tag == sequences[i] - base - (if wrap != 0 && i >= wrap then TAG_PERIOD else 0) + 1
    {
      TagForm(sequences, i);
    }
  }

  function Rotated(s: seq<Record>, start: nat): (r: seq<Record>)
    requires start <= |s|
    ensures |r| == |s|
  {
    s[start..] + s[..start]
  }

  /** Where element `i` of a rotation comes from. */
  function Source(length: nat, start: nat, i: nat): (x: nat)
    requires i < length && start <= length
    ensures x < length
  {
    if i < length - start then i + start else i - (length - start)
  }

  lemma RotatedIsStrict(order: seq<Record>, sequences: seq<nat>, wrap: nat, base: nat)
    requires InOrder(order, sequences) && wrap < |order| && Tagged(order, sequences, wrap, base)
    ensures StrictByTag(Rotated(order, wrap))
  {
    var r, m := Rotated(order, wrap), |order|;
    forall a, b | 0 <= a < b < m ensures r[a].tag < r[b].tag {
      var x, y := Source(m, wrap, a), Source(m, wrap, b);
      assert r[a] == order[x] && r[b] == order[y];
      assert x < y ==> sequences[x] < sequences[y];
      assert 0 < x ==> sequences[0] < sequences[x];
      assert x < m - 1 ==> sequences[x] < sequences[m - 1];
      assert 0 < y ==> sequences[0] < sequences[y];
    }
  }

  /** Sorting by tag rotates the write order to the wrap. */
  lemma SortedIsRotated(order: seq<Record>, sequences: seq<nat>, sorted: seq<Record>)
    requires InOrder(order, sequences) && order != []
    requires SortedByTag(sorted) && multiset(sorted) == multiset(order)
    ensures sorted == Rotated(order, Wrap(sequences, 0))
  {
    var j := Wrap(sequences, 0);
    var base := TagsOf(order, sequences);
    RotatedIsStrict(order, sequences, j, base);
    RotatedMultiset(order, j);
    SortedUnique(sorted, Rotated(order, j));
  }

  lemma RotatedMultiset(s: seq<Record>, start: nat)
    requires start <= |s|
    ensures multiset(Rotated(s, start)) == multiset(s)
  {
    assert s == s[..start] + s[start..];
  }

  // ------------------------------------------------------ the widest gap

  /** The distance from the record before `i`, cyclically, to record `i`. */
  function Gap(s: seq<Record>, i: nat): int
    requires i < |s|
  {
    if i == 0 then s[0].tag + TAG_PERIOD - s[|s| - 1].tag else s[i].tag - s[i - 1].tag
  }

  /** Only the gap before the oldest record exceeds half the period. */
  lemma WidestIsOldest(order: seq<Record>, sequences: seq<nat>, i: nat)
    requires InOrder(order, sequences) && i < |order|
    ensures var j := Wrap(sequences, 0);
            var sorted := Rotated(order, j);
            var oldest := if j == 0 then 0 else |order| - j;
            if i == oldest then Gap(sorted, i) > MAX_ENTRIES else Gap(sorted, i) <= MAX_ENTRIES
  {
    var base := TagsOf(order, sequences);
    GapAt(order, sequences, Wrap(sequences, 0), base, i);
  }

  lemma GapAt(order: seq<Record>, sequences: seq<nat>, wrap: nat, base: nat, i: nat)
    requires InOrder(order, sequences) && wrap < |order| && i < |order|
    requires Tagged(order, sequences, wrap, base)
    ensures var oldest := if wrap == 0 then 0 else |order| - wrap;
            if i == oldest then Gap(Rotated(order, wrap), i) > MAX_ENTRIES
            else Gap(Rotated(order, wrap), i) <= MAX_ENTRIES
  {
    var x, y := GapSource(order, wrap, i);
    StepAt(sequences, x, y);
    assert order[x].tag == sequences[x] - base - (if wrap != 0 && x >= wrap then TAG_PERIOD else 0) + 1;
    assert order[y].tag == sequences[y] - base - (if wrap != 0 && y >= wrap then TAG_PERIOD else 0) + 1;
  }

  /** The records on either side of gap `i` of a rotation are neighbours in the original. */
  lemma GapSource(order: seq<Record>, wrap: nat, i: nat) returns (x: nat, y: nat)
    requires wrap < |order| && i < |order|
    ensures x < |order| && y == (if x == 0 then |order| - 1 else x - 1)
    ensures x == 0 <==> i == if wrap == 0 then 0 else |order| - wrap
    ensures Gap(Rotated(order, wrap), i) == order[x].tag - order[y].tag + (if x == wrap then TAG_PERIOD else 0)
  {
    var m, sorted := |order|, Rotated(order, wrap);
    var before := if i == 0 then m - 1 else i - 1;
    x, y := Source(m, wrap, i), Source(m, wrap, before);
    assert sorted[i] == order[x] && sorted[before] == order[y];
  }

  lemma StepAt(sequences: seq<nat>, x: nat, y: nat)
    requires x < |sequences| && y == (if x == 0 then |sequences| - 1 else x - 1)
    requires forall i, j :: 0 <= i < j < |sequences| ==> sequences[i] < sequences[j]
    requires sequences[|sequences| - 1] - sequences[0] <= MAX_ENTRIES
    ensures if x == 0 then sequences[y] - sequences[x] <= MAX_ENTRIES
            else 0 < sequences[x] - sequences[y] <= MAX_ENTRIES
  {
    if x != 0 {
      assert y > 0 ==> sequences[0] < sequences[y];
      assert x < |sequences| - 1 ==> sequences[x] < sequences[|sequences| - 1];
    }
  }

  /** The loop of `oldest_first`: an index with the widest gap. */
  method WidestGap(sorted: seq<Record>) returns (start: nat)
    requires sorted != [] && SortedByTag(sorted)
    ensures start < |sorted|
    ensures forall i :: 0 <= i < |sorted| ==> Gap(sorted, i) <= Gap(sorted, start)
  {
    start := 0;
    var widest := sorted[0].tag + TAG_PERIOD - sorted[|sorted| - 1].tag;
    for index := 0 to |sorted| - 1
      invariant start <= index && widest == Gap(sorted, start)
      invariant forall i :: 0 <= i <= index ==> Gap(sorted, i) <= widest
    {
      var gap := sorted[index + 1].tag - sorted[index].tag;
      if gap > widest {
        widest := gap;
        start := index + 1;
      }
    }
  }

  lemma StartIsOldest(order: seq<Record>, sequences: seq<nat>, sorted: seq<Record>, start: nat)
    requires InOrder(order, sequences) && order != []
    requires sorted == Rotated(order, Wrap(sequences, 0)) && start < |sorted|
    requires forall i :: 0 <= i < |sorted| ==> Gap(sorted, i) <= Gap(sorted, start)
    ensures Rotated(sorted, start) == order
  {
    var j := Wrap(sequences, 0);
    var oldest := if j == 0 then 0 else |order| - j;
    WidestIsOldest(order, sequences, start);
    WidestIsOldest(order, sequences, oldest);
    assert Gap(sorted, oldest) <= Gap(sorted, start);
    RotateBack(order, j);
  }

  lemma RotateBack(s: seq<Record>, j: nat)
    requires j < |s|
    ensures Rotated(Rotated(s, j), if j == 0 then 0 else |s| - j) == s
  {
    var r := Rotated(s, j);
    assert j != 0 ==> r[|s| - j..] == s[..j] && r[..|s| - j] == s[j..];
  }

  /** Puts any records of one trace, in any arrangement and with any entries lost, in the exact
      order they were written; always a permutation. */
  method OldestFirst(records: array<Record>)
    modifies records
    ensures multiset(records[..]) == multiset(old(records[..]))
    ensures forall order, sequences :: InOrder(order, sequences) && multiset(order) == multiset(old(records[..]))
              ==> records[..] == order
  {
    ghost var was := records[..];
    SortSorts(was);
    Sorting.SameLength(Sorting.Sort(ByTag, was), was);
    Store(records, Sorting.Sort(ByTag, records[..]));
    ghost var sorted := records[..];
    var start := 0;
    if records.Length != 0 {
      start := WidestGap(records[..]);
    }
    Store(records, Rotated(records[..], start));
    RotatedMultiset(sorted, start);
    forall order, sequences | InOrder(order, sequences) && multiset(order) == multiset(was)
      ensures records[..] == order
    {
      Recovered(order, sequences, sorted, start);
    }
  }

  /** Rotating the sorted records to their widest gap gives back the write order. */
  lemma Recovered(order: seq<Record>, sequences: seq<nat>, sorted: seq<Record>, start: nat)
    requires InOrder(order, sequences) && SortedByTag(sorted) && multiset(sorted) == multiset(order)
    requires start <= |sorted| && (sorted != [] ==> start < |sorted|)
    requires forall i :: 0 <= i < |sorted| ==> Gap(sorted, i) <= Gap(sorted, start)
    ensures Rotated(sorted, start) == order
  {
    Sorting.SameLength(sorted, order);
    if order != [] {
      SortedIsRotated(order, sequences, sorted);
      StartIsOldest(order, sequences, sorted, start);
    }
  }

  method Store(a: array<Record>, s: seq<Record>)
    requires |s| == a.Length
    modifies a
    ensures a[..] == s
  {
    for i := 0 to |s|
      invariant a[..i] == s[..i]
    {
      a[i] := s[i];
      assert s[..i + 1] == s[..i] + [s[i]];
      assert a[..i + 1] == a[..i] + [s[i]];
    }
  }
}
