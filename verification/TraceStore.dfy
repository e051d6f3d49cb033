/**
 The retained trace of `crates/trace/src/store.rs`: a ring of committed entries, the freeze
 window, and what a later boot reads back.
 */
module TraceStore {
  import opened Arithmetic
  import opened TraceOrder
  import RingOrder
  import opened Wrappers

  /** `remaining` before a freeze: `u32::MAX`. */
  const RUNNING_WINDOW: nat := 0xFFFF_FFFF

  datatype Status = Held | Running | Frozen

  /** What one `record` call stores: a kind below 2^16, a timestamp and two words. */
  datatype Body = Body(kind: nat, tUs: nat, words: (nat, nat))

  /** The guard word: kind above, tag below. Zero marks an empty slot. */
  function Commit(kind: nat, sequence: nat): (c: nat)
    ensures c != 0
  {
    kind * 0x1_0000 + Tag(sequence)
  }

  lemma CommitParts(kind: nat, sequence: nat)
    ensures Commit(kind, sequence) % 0x1_0000 == Tag(sequence) && Commit(kind, sequence) / 0x1_0000 == kind
  {
  }

  datatype Entry = Entry(commit: nat, tUs: nat, words: (nat, nat))

  function Written(body: Body, sequence: nat): Entry {
    Entry(Commit(body.kind, sequence), body.tUs, body.words)
  }

  /** `Entry::read` with no writer under way. */
  function Read(e: Entry): Option<Record> {
    if e.commit == 0 then None else Some(Record(e.commit % 0x1_0000, e.commit / 0x1_0000, e.tUs, e.words))
  }

  function RecordOf(body: Body, sequence: nat): Record {
    Record(Tag(sequence), body.kind, body.tUs, body.words)
  }

  // ------------------------------------------------------ the freeze window

  /** The counters of a trace and, for the specification, the bodies stored since its restart. */
  datatype Window = Window(status: Status, sequence: nat, remaining: nat, trigger: nat, log: seq<Body>)

  const STARTED := Window(Running, 0, RUNNING_WINDOW, 0, [])

  /** Whether `record` stores; if so, whether it is the last of a freeze window. */
  function RecordStep(w: Window, body: Body): Window {
    if w.remaining == 0 then w
    else
      var stored := w.(sequence := (w.sequence + 1) % U32, log := w.log + [body]);
      if w.remaining == RUNNING_WINDOW then stored
      else stored.(remaining := w.remaining - 1, status := if w.remaining == 1 then Frozen else w.status)
  }

  function FreezeStep(w: Window, kind: nat, post: nat): Window {
    if w.status != Running || w.remaining != RUNNING_WINDOW then w
    else w.(remaining := post, trigger := Commit(kind, w.sequence),
            status := if post == 0 then Frozen else w.status)
  }

  datatype Call = Store(body: Body) | Freeze(kind: nat, post: nat)

  function Step(w: Window, call: Call): Window {
    match call
    case Store(body) => RecordStep(w, body)
    case Freeze(kind, post) => FreezeStep(w, kind, post)
  }

  function Run(w: Window, calls: seq<Call>): Window
    decreases |calls|
  {
    if calls == [] then w else Run(Step(w, calls[0]), calls[1..])
  }

  /** The bodies of the `record` calls, in order. */
  function Bodies(calls: seq<Call>): seq<Body> {
    if calls == [] then []
    else (if calls[0].Store? then [calls[0].body] else []) + Bodies(calls[1..])
  }

  function Take(bodies: seq<Body>, count: nat): seq<Body> {
    if count < |bodies| then bodies[..count] else bodies
  }

  lemma NextSequence(n: nat)
    ensures (n % U32 + 1) % U32 == (n + 1) % U32
  {
  }

  ghost predicate Unfrozen(w: Window) {
    w.status == Running && w.remaining == RUNNING_WINDOW && w.sequence == |w.log| % U32
  }

  ghost predicate NoEffectiveFreeze(calls: seq<Call>) {
    forall i :: 0 <= i < |calls| && calls[i].Freeze? ==> calls[i].post == RUNNING_WINDOW
  }

  lemma Appended(log: seq<Body>, body: Body, rest: seq<Body>)
    ensures (log + [body]) + rest == log + ([body] + rest)
  {
  }

  /** Without an effective freeze everything is stored. */
  lemma {:induction false} RunsUnfrozen(w: Window, calls: seq<Call>)
    requires Unfrozen(w) && NoEffectiveFreeze(calls)
    ensures Unfrozen(Run(w, calls)) && Run(w, calls).log == w.log + Bodies(calls)
    decreases |calls|
  {
    if calls != [] {
      var next := Step(w, calls[0]);
      NextSequence(|w.log|);
      assert Unfrozen(next);
      RunsUnfrozen(next, calls[1..]);
      if calls[0].Store? {
        Appended(w.log, calls[0].body, Bodies(calls[1..]));
      } else {
        assert next.log == w.log && [] + Bodies(calls[1..]) == Bodies(calls[1..]);
      }
    }
  }

  lemma TakeMore(body: Body, rest: seq<Body>, count: nat)
    requires count > 0
    ensures Take([body] + rest, count) == [body] + Take(rest, count - 1)
  {
  }

  ghost predicate Windowed(w: Window) {
    w.remaining < RUNNING_WINDOW && (w.status == Frozen <==> w.remaining == 0)
  }

  /** Inside a freeze window the next `remaining` bodies are stored and no freeze counts. */
  lemma {:induction false} RunsFrozen(w: Window, calls: seq<Call>)
    requires Windowed(w)
    ensures var e := Run(w, calls);
            && Windowed(e) && e.trigger == w.trigger
            && e.log == w.log + Take(Bodies(calls), w.remaining)
            && e.remaining == w.remaining - |Take(Bodies(calls), w.remaining)|
    decreases |calls|
  {
    if calls == [] {
      assert w.log + [] == w.log;
    } else {
      var next, rest := Step(w, calls[0]), Bodies(calls[1..]);
      RunsFrozen(next, calls[1..]);
      if calls[0].Store? && w.remaining > 0 {
        TakeMore(calls[0].body, rest, w.remaining);
        Appended(w.log, calls[0].body, Take(rest, w.remaining - 1));
      } else {
        assert next == w;
        assert calls[0].Freeze? ==> [] + rest == rest;
      }
    }
  }

  lemma {:induction false} RunConcat(w: Window, a: seq<Call>, b: seq<Call>)
    ensures Run(w, a + b) == Run(Run(w, a), b)
    decreases |a|
  {
    if a == [] {
      assert a + b == b;
    } else {
      assert (a + b)[1..] == a[1..] + b;
      RunConcat(Step(w, a[0]), a[1..], b);
    }
  }

  /** The first freeze with `post` below `u32::MAX` is followed by exactly `post` stored records, or
      all if fewer come, and none after; its trigger names the first record after it. */
  lemma FreezeWindow(before: seq<Call>, kind: nat, post: nat, after: seq<Call>)
    requires post < RUNNING_WINDOW
    requires NoEffectiveFreeze(before)
    ensures var e := Run(STARTED, before + [Freeze(kind, post)] + after);
            && e.log == Bodies(before) + Take(Bodies(after), post)
            && e.trigger == Commit(kind, |Bodies(before)| % U32)
            && (e.status == Frozen <==> |Bodies(after)| >= post)
  {
    var w, freeze := Run(STARTED, before), Freeze(kind, post);
    RunsUnfrozen(STARTED, before);
    assert STARTED.log + Bodies(before) == Bodies(before);
    RunConcat(STARTED, before + [freeze], after);
    RunConcat(STARTED, before, [freeze]);
    RunOne(w, freeze);
    RunsFrozen(Step(w, freeze), after);
  }

  lemma RunOne(w: Window, call: Call)
    ensures Run(w, [call]) == Step(w, call)
  {
    assert [call][1..] == [];
  }

  /** A later freeze is ignored whatever it asks exactly when the first asked for less than
      `u32::MAX` records. */
  lemma FirstFreezeCountsIff(w: Window, kind: nat, post: nat)
    requires w.status == Running && w.remaining == RUNNING_WINDOW && post <= RUNNING_WINDOW
    ensures (forall k, p :: FreezeStep(FreezeStep(w, kind, post), k, p) == FreezeStep(w, kind, post))
            <==> post != RUNNING_WINDOW
  {
    var f := FreezeStep(w, kind, post);
    if post == RUNNING_WINDOW {
      assert FreezeStep(f, kind, 0).status == Frozen;
    }
  }

  // ------------------------------------------------------ the ring

  /** The ring holds the newest bodies of `log`, each in its slot with its tag, and nothing else. */
  ghost predicate RingHolds(entries: seq<Entry>, log: seq<Body>) {
    && |entries| > 0
    && (forall s: nat :: |log| - |entries| <= s < |log| ==> entries[Rem(s, |entries|)] == Written(log[s], s))
    && (forall i :: |log| <= i < |entries| ==> entries[i].commit == 0)
  }

  /** Any subset of the entries may be lost to tearing. */
  ghost predicate Torn(entries: seq<Entry>, after: seq<Entry>) {
    |after| == |entries| && forall i :: 0 <= i < |after| ==> after[i] == entries[i] || after[i].commit == 0
  }

  function Readable(e: Entry): seq<Record> {
    match Read(e)
    case Some(r) => [r]
    case None => []
  }

  /** The records of all slots that are not empty, slot by slot. */
  function Collect(entries: seq<Entry>): seq<Record> {
    RingOrder.Gather(Readable, entries)
  }

  /** The complete entries of sequences `from..end`, in write order. */
  function Survivors(entries: seq<Entry>, from: nat, end: nat): seq<Record>
    requires entries != [] && from <= end
  {
    RingOrder.Numbered(Readable, entries, from, end)
  }

  /** Their sequence numbers. */
  ghost function Numbers(entries: seq<Entry>, from: nat, end: nat): seq<nat>
    requires entries != [] && from <= end
  {
    if from == end then []
    else Numbers(entries, from, end - 1) + (if entries[Rem(end - 1, |entries|)].commit == 0 then [] else [end - 1])
  }

  /** `records` are the bodies of `log` numbered `numbers`, increasing within `from..end`. */
  ghost predicate Numbered(log: seq<Body>, records: seq<Record>, numbers: seq<nat>, from: nat, end: nat)
    requires end <= |log|
  {
    && |records| == |numbers|
    && (forall i :: 0 <= i < |numbers| ==>
          from <= numbers[i] < end && records[i] == RecordOf(log[numbers[i]], numbers[i]))
    && (forall i, j :: 0 <= i < j < |numbers| ==> numbers[i] < numbers[j])
  }

  lemma NumberedNext(log: seq<Body>, records: seq<Record>, numbers: seq<nat>, from: nat, s: nat)
    requires from <= s < |log| && Numbered(log, records, numbers, from, s)
    ensures Numbered(log, records + [RecordOf(log[s], s)], numbers + [s], from, s + 1)
    ensures Numbered(log, records, numbers, from, s + 1)
  {
  }

  lemma ReadableWritten(body: Body, s: nat)
    ensures Readable(Written(body, s)) == [RecordOf(body, s)]
  {
    CommitParts(body.kind, s);
  }

  lemma {:induction false} SurvivorsInOrder(entries: seq<Entry>, after: seq<Entry>, log: seq<Body>, from: nat, end: nat)
    requires RingHolds(entries, log) && Torn(entries, after)
    requires |log| - |entries| <= from <= end <= |log|
    ensures Numbered(log, Survivors(after, from, end), Numbers(after, from, end), from, end)
    decreases end
  {
    if from < end {
      var s := end - 1;
      SurvivorsInOrder(entries, after, log, from, s);
      SlotLeft(entries, after, log, s);
      NumberedAfter(log, Survivors(after, from, s), Numbers(after, from, s), from, s, after[Rem(s, |after|)]);
    }
  }

  /** What a slot holds after losses. */
  lemma SlotLeft(entries: seq<Entry>, after: seq<Entry>, log: seq<Body>, s: nat)
    requires RingHolds(entries, log) && Torn(entries, after) && |log| - |entries| <= s < |log|
    ensures var e := after[Rem(s, |after|)];
            e.commit == 0 || e == Written(log[s], s)
  {
  }

  lemma NumberedAfter(log: seq<Body>, records: seq<Record>, numbers: seq<nat>, from: nat, s: nat, e: Entry)
    requires from <= s < |log| && Numbered(log, records, numbers, from, s) && (e.commit == 0 || e == Written(log[s], s))
    ensures Numbered(log, records + Readable(e), numbers + (if e.commit == 0 then [] else [s]), from, s + 1)
  {
    NumberedNext(log, records, numbers, from, s);
    if e.commit == 0 {
      assert records + [] == records && numbers + [] == numbers;
    } else {
      ReadableWritten(log[s], s);
    }
  }

  lemma NotWritten(entries: seq<Entry>, after: seq<Entry>, log: seq<Body>)
    requires RingHolds(entries, log) && Torn(entries, after)
    ensures forall i :: |log| <= i < |after| ==> Readable(after[i]) == []
  {
  }

  /** What storage order reads is what write order reads, rearranged. */
  lemma SameRecords(entries: seq<Entry>, after: seq<Entry>, log: seq<Body>)
    requires RingHolds(entries, log) && Torn(entries, after)
    ensures multiset(Survivors(after, Oldest(|entries|, |log|), |log|)) == multiset(Collect(after))
  {
    NotWritten(entries, after, log);
    RingOrder.SameRead(Readable, after, |log|, Oldest(|entries|, |log|));
  }

  /** The sequence of the oldest record a ring of `size` still holds after `count` records. */
  function Oldest(size: nat, count: nat): nat {
    if count < size then 0 else count - size
  }

  /** For every geometry the tags can order, every run of at most 2^32 records and every subset of
      entries lost, the readable entries are the surviving newest records and their tags tell the
      write order: `oldest_first` returns it. */
  lemma ReadsBackInOrder(entries: seq<Entry>, after: seq<Entry>, log: seq<Body>)
    requires RingHolds(entries, log) && Torn(entries, after)
    requires |entries| <= MAX_ENTRIES && |log| <= U32
    ensures InOrder(Survivors(after, Oldest(|entries|, |log|), |log|), Numbers(after, Oldest(|entries|, |log|), |log|))
    ensures multiset(Survivors(after, Oldest(|entries|, |log|), |log|)) == multiset(Collect(after))
  {
    SurvivorsOrdered(entries, after, log);
    SameRecords(entries, after, log);
  }

  lemma SurvivorsOrdered(entries: seq<Entry>, after: seq<Entry>, log: seq<Body>)
    requires RingHolds(entries, log) && Torn(entries, after)
    requires |entries| <= MAX_ENTRIES && |log| <= U32
    ensures InOrder(Survivors(after, Oldest(|entries|, |log|), |log|), Numbers(after, Oldest(|entries|, |log|), |log|))
  {
    SurvivorsInOrder(entries, after, log, Oldest(|entries|, |log|), |log|);
  }
}
