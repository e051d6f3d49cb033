/**
 The recorder of `crates/trace/src/store.rs` in place: its counters, its freeze window and its ring, and
 what a later boot reads of it, over runs of any length.
 */
module TraceRecorder {
  import opened Arithmetic
  import opened TraceOrder
  import opened TraceStore
  import opened TraceRing
  import opened TraceWrap
  import RingOrder

  method ReadComplete(entries: seq<Entry>) returns (records: seq<TraceOrder.Record>)
    ensures records == Collect(entries)
  {
    records := [];
    for i := 0 to |entries|
      invariant records == Collect(entries[..i])
    {
      assert entries[..i + 1] == entries[..i] + [entries[i]];
      RingOrder.GatherConcat(Readable, entries[..i], [entries[i]]);
      RingOrder.GatherOne(Readable, entries[i]);
      records := records + Readable(entries[i]);
    }
    assert entries[..|entries|] == entries;
  }

  class Trace {
    const entries: array<Entry>
    var status: Status
    var sequence: nat
    var remaining: nat
    var trigger: nat
    ghost var log: seq<Body>

    ghost predicate Valid()
      reads this, entries
    {
      && 0 < entries.Length <= MAX_ENTRIES
      && sequence == |log| % U32
      && RingOf(entries[..], log)
    }

    ghost function State(): Window
      reads this
    {
      Window(status, sequence, remaining, trigger, log)
    }

    /** A trace over storage as it is; nothing is recorded before a restart. */
    constructor (storage: array<Entry>, trigger: nat)
      requires 0 < storage.Length <= MAX_ENTRIES
      ensures entries == storage && State() == Window(Status.Held, 0, RUNNING_WINDOW, trigger, [])
    {
      entries := storage;
      status, sequence, remaining, log := Status.Held, 0, RUNNING_WINDOW, [];
      this.trigger := trigger;
    }

    /** Clears the storage and records from now on, whatever it held. */
    method Restart()
      requires 0 < entries.Length <= MAX_ENTRIES
      modifies this, entries
      ensures Valid() && State() == STARTED
    {
      status := Status.Held;
      for i := 0 to entries.Length
        invariant forall j :: 0 <= j < i ==> entries[j].commit == 0
        invariant status == Status.Held
      {
        entries[i] := entries[i].(commit := 0);
      }
      trigger, sequence, remaining, log := 0, 0, RUNNING_WINDOW, [];
      status := Running;
    }

    /** `last` tells that the window closed with this record. */
    method Record(body: Body) returns (last: bool)
      requires Valid()
      modifies this, entries
      ensures Valid() && State() == RecordStep(old(State()), body)
      ensures last <==> old(remaining) == 1
    {
      last := false;
      if remaining != RUNNING_WINDOW {
        if remaining == 0 {
          return;
        }
        last := remaining == 1;
        remaining := remaining - 1;
      }
      StoreEntry(body);
      if last {
        status := Frozen;
      }
    }

    method SlotOf(number: nat) returns (slot: nat)
      requires entries.Length > 0
      ensures slot == Rem(number, entries.Length)
    {
      RemIsMod(number, entries.Length);
      slot := number % entries.Length;
    }

    method StoreEntry(body: Body)
      requires Valid()
      modifies `sequence, `log, entries
      ensures Valid() && sequence == (old(sequence) + 1) % U32 && log == old(log) + [body]
    {
      NextSequence(|log|);
      ghost var was := entries[..];
      RingGrows(was, log, body);
      var slot := SlotOf(sequence);
      entries[slot] := Written(body, sequence);
      assert entries[..] == was[slot := Written(body, sequence)];
      sequence := (sequence + 1) % U32;
      log := log + [body];
    }

    /** `stop` tells that the window closed at once. */
    method Freeze(kind: nat, post: nat) returns (stop: bool)
      requires Valid() && post <= RUNNING_WINDOW
      modifies this
      ensures Valid() && State() == FreezeStep(old(State()), kind, post)
      ensures stop <==> old(status) == Running && old(remaining) == RUNNING_WINDOW && post == 0
    {
      if status != Running || remaining != RUNNING_WINDOW {
        return false;
      }
      remaining := post;
      trigger := Commit(kind, sequence);
      if post == 0 {
        status := Frozen;
      }
      stop := post == 0;
    }

    /** Reads slot after slot. */
    method Records() returns (records: seq<TraceOrder.Record>)
      ensures records == Collect(entries[..])
    {
      records := ReadComplete(entries[..]);
    }

    /** A later boot finds `after`, some entries lost. What it reads are records held, each once, and
        wherever the ring keeps order it reads them in the order they were written; up to the first wrap
        these are the newest. */
    method Drain(after: seq<Entry>, out: array<TraceOrder.Record>) returns (ghost numbers: seq<nat>)
      requires Valid() && Torn(entries[..], after) && out.Length == |Collect(after)|
      modifies out
      ensures Survive(TraceWrap.Held(entries.Length, |log|), numbers)
      ensures forall i :: 0 <= i < |numbers| ==> numbers[i] < |log|
      ensures multiset(out[..]) == multiset(Collect(after)) == multiset(TraceRing.Records(log, numbers))
      ensures KeepsOrder(entries.Length, |log|) ==> out[..] == TraceRing.Records(log, numbers)
      ensures |log| <= U32 ==> out[..] == Survivors(after, Oldest(entries.Length, |log|), |log|)
    {
      var records := ReadComplete(after);
      TraceOrder.Store(out, records);
      numbers := ReadsHeld(entries[..], after, log);
      OrderlyIff(entries.Length, |log|);
      if KeepsOrder(entries.Length, |log|) {
        VirtualsInOrder(TraceWrap.Held(entries.Length, |log|), numbers, TraceRing.Records(log, numbers));
      }
      if |log| <= U32 {
        RingBeforeWrap(entries[..], log);
        ReadsBackInOrder(entries[..], after, log);
      }
      OldestFirst(out);
    }
  }
}
