/**
 The affine single-producer single-consumer queue of `crates/memory/src/affine_spsc.rs`: cursors
 modulo twice the depth, and every interleaving of its two endpoints' atomic steps.
 */
module Spsc {
  import opened Arithmetic
  import opened Wrappers

  // ------------------------------------------------------ cursors

  function CursorDistance(depth: nat, consumer: nat, producer: nat): int {
    if producer >= consumer then producer - consumer else depth * 2 - (consumer - producer)
  }

  function Advance(depth: nat, cursor: nat): nat {
    if cursor + 1 == depth * 2 then 0 else cursor + 1
  }

  /** Cursors that reduce counts at most a depth apart tell exactly how far apart they are. */
  lemma DistanceIsCount(depth: nat, c: nat, p: nat)
    requires depth > 0 && c <= p <= c + depth
    ensures CursorDistance(depth, Rem(c, 2 * depth), Rem(p, 2 * depth)) == p - c
    ensures Rem(c, 2 * depth) == Rem(p, 2 * depth) <==> c == p
  {
    RemPlus(c, p - c, 2 * depth);
  }

  lemma AdvanceIsNext(depth: nat, n: nat)
    requires depth > 0
    ensures Advance(depth, Rem(n, 2 * depth)) == Rem(n + 1, 2 * depth)
  {
    RemNext(n, 2 * depth);
  }

  // ------------------------------------------------------ interleaved endpoints

  /** A sender is free, holds a permit for a cursor, or wrote its cell and has yet to publish it. */
  datatype Sender<T> = Free | Permit(cursor: nat) | Wrote(cursor: nat, value: T)

  /** A receiver is idle, saw a published cell, or moved its value out and has yet to advance. */
  datatype Receiver = Idle | Sees(cursor: nat) | Took(cursor: nat)

  /**
   The queue's memory, its endpoints and, for the specification, the values published and taken.
   `promised` is the free capacity the sender last observed, until it sends.
   */
  datatype Queue<T> = Queue(
    depth: nat, cells: seq<Option<T>>, producer: nat, consumer: nat,
    sender: Sender<T>, receiver: Receiver, sent: seq<T>, received: seq<T>, promised: nat)

  datatype Action<T> =
    | Reserve | DropPermit | WriteCell(value: T) | Publish | Observe
    | LoadProducer | ReadCell | AdvanceConsumer

  ghost predicate Enabled<T>(q: Queue<T>, a: Action<T>) {
    match a
    case Reserve => q.sender.Free?
    case DropPermit => q.sender.Permit?
    case WriteCell(_) => q.sender.Permit?
    case Publish => q.sender.Wrote?
    case Observe => q.sender.Free?
    case LoadProducer => q.receiver.Idle?
    case ReadCell => q.receiver.Sees?
    case AdvanceConsumer => q.receiver.Took?
  }

  function Slot(q: Queue, cursor: nat): (i: nat)
    requires q.depth > 0
    ensures i < q.depth
  {
    Rem(cursor, q.depth)
  }

  /** The two memory accesses that must be safe: writing over a live value, reading a dead cell. */
  ghost predicate Safe<T>(q: Queue<T>, a: Action<T>)
    requires q.depth > 0 && |q.cells| == q.depth && Enabled(q, a)
  {
    && (a.WriteCell? ==> q.cells[Slot(q, q.sender.cursor)].None?)
    && (a.ReadCell? ==> q.cells[Slot(q, q.receiver.cursor)].Some?)
  }

  function FreeCapacity(q: Queue): nat {
    var length := CursorDistance(q.depth, q.consumer, q.producer);
    if length >= q.depth then 0 else if length < 0 then q.depth else q.depth - length
  }

  ghost function Next<T>(q: Queue<T>, a: Action<T>): Queue<T>
    requires q.depth > 0 && |q.cells| == q.depth && Enabled(q, a) && Safe(q, a)
  {
    match a
    case Reserve =>
      if CursorDistance(q.depth, q.consumer, q.producer) >= q.depth then q
      else q.(sender := Permit(q.producer))
    case DropPermit => q.(sender := Free)
    case WriteCell(value) =>
      q.(cells := q.cells[Slot(q, q.sender.cursor) := Some(value)], sender := Wrote(q.sender.cursor, value))
    case Publish =>
      q.(producer := Advance(q.depth, q.sender.cursor), sender := Free, sent := q.sent + [q.sender.value],
         promised := if q.promised == 0 then 0 else q.promised - 1)
    case Observe => q.(promised := FreeCapacity(q))
    case LoadProducer => if q.consumer == q.producer then q else q.(receiver := Sees(q.consumer))
    case ReadCell =>
      var slot := Slot(q, q.receiver.cursor);
      q.(cells := q.cells[slot := None], receiver := Took(q.receiver.cursor),
         received := q.received + [q.cells[slot].value])
    case AdvanceConsumer => q.(consumer := Advance(q.depth, q.receiver.cursor), receiver := Idle)
  }

  /** How many values the consumer cursor has passed. */
  ghost function Passed(q: Queue): int {
    |q.received| - (if q.receiver.Took? then 1 else 0)
  }

  ghost predicate Cursors<T>(q: Queue<T>)
    requires q.depth > 0
  {
    && 0 <= Passed(q) <= |q.sent| <= Passed(q) + q.depth
    && q.producer == Rem(|q.sent|, 2 * q.depth) && q.consumer == Rem(Passed(q), 2 * q.depth)
    && (q.sender.Free? || (q.sender.cursor == q.producer && |q.sent| < Passed(q) + q.depth))
    && (q.receiver.Idle? || (q.receiver.cursor == q.consumer && Passed(q) < |q.sent|))
    && q.promised <= Passed(q) + q.depth - |q.sent|
  }

  /** Live cells hold the values sent and not yet taken; every other cell is empty. */
  ghost predicate Cells<T>(q: Queue<T>)
    requires q.depth > 0 && |q.cells| == q.depth
  {
    && q.received <= q.sent
    && (forall i :: |q.received| <= i < |q.sent| ==> q.cells[Rem(i, q.depth)] == Some(q.sent[i]))
    && (forall i :: |q.sent| <= i < |q.received| + q.depth ==>
          q.cells[Rem(i, q.depth)] == if q.sender.Wrote? && i == |q.sent| then Some(q.sender.value) else None)
  }

  ghost predicate Inv<T>(q: Queue<T>) {
    q.depth > 0 && |q.cells| == q.depth && Cursors(q) && Cells(q)
  }

  ghost function Start<T>(depth: nat): Queue<T> {
    Queue(depth, seq(depth, _ => None), 0, 0, Free, Idle, [], [], 0)
  }

  /** The slot of a cursor is the slot of the count it reduces. */
  lemma SlotOfCount(q: Queue, n: nat)
    requires q.depth > 0
    ensures Slot(q, Rem(n, 2 * q.depth)) == Rem(n, q.depth)
  {
    RemRem(n, q.depth);
  }

  /** No step overwrites a live value or reads an empty cell. */
  lemma AlwaysSafe<T>(q: Queue<T>, a: Action<T>)
    requires Inv(q) && Enabled(q, a)
    ensures Safe(q, a)
  {
    SlotOfCount(q, |q.sent|);
    SlotOfCount(q, Passed(q));
  }

  lemma WriteKeeps<T>(q: Queue<T>, value: T)
    requires Inv(q) && q.sender.Permit? && Safe(q, WriteCell(value))
    ensures Inv(Next(q, WriteCell(value)))
  {
    var d, p := q.depth, |q.sent|;
    SlotOfCount(q, p);
    forall i | |q.received| <= i < |q.received| + d && i != p ensures Rem(i, d) != Rem(p, d) {
      if i < p { RemDistinct(i, p, d); } else { RemDistinct(p, i, d); }
    }
  }

  lemma ReadKeeps<T>(q: Queue<T>)
    requires Inv(q) && q.receiver.Sees? && Safe(q, ReadCell)
    ensures Inv(Next(q, ReadCell))
    ensures Next(q, ReadCell).received == q.received + [q.sent[|q.received|]]
  {
    SlotOfCount(q, |q.received|);
    TakenCells(q, |q.received|, Next(q, ReadCell));
  }

  lemma TakenCells<T>(q: Queue<T>, r: nat, after: Queue<T>)
    requires q.depth > 0 && |q.cells| == q.depth && Cells(q)
    requires r == |q.received| < |q.sent| <= r + q.depth && (q.sender.Wrote? ==> |q.sent| < r + q.depth)
    requires after == q.(cells := q.cells[Rem(r, q.depth) := None], receiver := after.receiver,
                         received := q.received + [q.sent[r]])
    ensures Cells(after)
  {
    var d := q.depth;
    forall i | r < i < r + d ensures Rem(i, d) != Rem(r, d) { RemDistinct(r, i, d); }
    assert Rem(r + d, d) == Rem(r, d);
  }

  lemma PublishKeeps<T>(q: Queue<T>)
    requires Inv(q) && q.sender.Wrote?
    ensures Inv(Next(q, Publish))
  {
    AdvanceIsNext(q.depth, |q.sent|);
  }

  lemma AdvanceKeeps<T>(q: Queue<T>)
    requires Inv(q) && q.receiver.Took?
    ensures Inv(Next(q, AdvanceConsumer))
  {
    AdvanceIsNext(q.depth, Passed(q));
  }

  lemma StepKeeps<T>(q: Queue<T>, a: Action<T>)
    requires Inv(q) && Enabled(q, a) && Safe(q, a)
    ensures Inv(Next(q, a))
  {
    match a
    case Reserve => DistanceIsCount(q.depth, Passed(q), |q.sent|);
    case DropPermit =>
    case WriteCell(value) => WriteKeeps(q, value);
    case Publish => PublishKeeps(q);
    case Observe => DistanceIsCount(q.depth, Passed(q), |q.sent|);
    case LoadProducer => DistanceIsCount(q.depth, Passed(q), |q.sent|);
    case ReadCell => ReadKeeps(q);
    case AdvanceConsumer => AdvanceKeeps(q);
  }

  /** `states` is a run of one queue from its construction. */
  ghost predicate IsRun<T>(states: seq<Queue<T>>, actions: seq<Action<T>>) {
    && |states| == |actions| + 1
    && states[0].depth > 0 && states[0] == Start(states[0].depth)
    && forall i :: 0 <= i < |actions| ==>
         && states[i].depth > 0 && |states[i].cells| == states[i].depth && Enabled(states[i], actions[i])
         && (Safe(states[i], actions[i]) ==> states[i + 1] == Next(states[i], actions[i]))
  }

  lemma {:induction false} RunKeeps<T>(states: seq<Queue<T>>, actions: seq<Action<T>>, i: nat)
    requires IsRun(states, actions) && i < |states|
    ensures Inv(states[i])
  {
    if i > 0 {
      RunKeeps(states, actions, i - 1);
      AlwaysSafe(states[i - 1], actions[i - 1]);
      StepKeeps(states[i - 1], actions[i - 1]);
    }
  }

  /** The values still in the queue: published and not taken. */
  ghost function Queued<T>(q: Queue<T>): seq<T>
    requires |q.received| <= |q.sent|
  {
    q.sent[|q.received|..]
  }

  /** In every interleaving every access is safe, received values followed by queued values are the
      sent values in order, and never more than the depth are queued. */
  lemma QueueIsFifo<T>(states: seq<Queue<T>>, actions: seq<Action<T>>, i: nat)
    requires IsRun(states, actions) && i < |states|
    ensures |states[i].received| <= |states[i].sent| && |Queued(states[i])| <= states[i].depth
    ensures states[i].received + Queued(states[i]) == states[i].sent
    ensures i < |actions| ==> Safe(states[i], actions[i])
  {
    RunKeeps(states, actions, i);
    if i < |actions| { AlwaysSafe(states[i], actions[i]); }
  }

  /** Once the sender saw free capacity and has not used it up, reserving succeeds, wherever the
      consumer has moved since. */
  lemma ObservedCapacityHolds<T>(states: seq<Queue<T>>, actions: seq<Action<T>>, i: nat)
    requires IsRun(states, actions) && i < |states|
    requires states[i].promised > 0 && states[i].sender.Free?
    ensures Inv(states[i]) && Next(states[i], Reserve).sender.Permit?
  {
    RunKeeps(states, actions, i);
    DistanceIsCount(states[i].depth, Passed(states[i]), |states[i].sent|);
  }

  /** At every moment of every run the free capacity is what the values behind the consumer's cursor leave, a
      reservation is refused exactly when they leave none, and a receiver finds nothing exactly when there is
      none. */
  lemma DecidedByCount<T>(states: seq<Queue<T>>, actions: seq<Action<T>>, i: nat)
    requires IsRun(states, actions) && i < |states|
    ensures var q := states[i];
            var queued := |q.sent| - Passed(q);
            Inv(q) && 0 <= queued <= q.depth && FreeCapacity(q) == q.depth - queued &&
            (q.sender.Free? ==> (Next(q, Reserve).sender.Permit? <==> queued < q.depth)) &&
            (q.receiver.Idle? ==> (Next(q, LoadProducer).receiver.Sees? <==> queued > 0))
  {
    RunKeeps(states, actions, i);
    var q := states[i];
    DistanceIsCount(q.depth, Passed(q), |q.sent|);
  }

  // ------------------------------------------------------ the storage itself

  ghost predicate Quiescent<T>(q: Queue<T>) {
    q.sender.Free? && q.receiver.Idle?
  }

  /** A whole send is a permit, a write and a publication. */
  lemma SendKeeps<T>(q: Queue<T>, value: T)
    requires Inv(q) && Quiescent(q) && q.promised == 0 && |q.sent| < |q.received| + q.depth
    ensures Inv(q.(cells := q.cells[Rem(q.producer, q.depth) := Some(value)], producer := Advance(q.depth, q.producer),
                   sent := q.sent + [value]))
  {
    var permit := q.(sender := Permit(q.producer));
    AlwaysSafe(permit, WriteCell(value));
    WriteKeeps(permit, value);
    PublishKeeps(Next(permit, WriteCell(value)));
  }

  /** A whole receive is a look, a read and an advance. */
  lemma ReceiveKeeps<T>(q: Queue<T>)
    requires Inv(q) && Quiescent(q) && |q.received| < |q.sent|
    ensures var cell := q.cells[Rem(q.consumer, q.depth)];
            cell.Some? &&
            Inv(q.(cells := q.cells[Rem(q.consumer, q.depth) := None], consumer := Advance(q.depth, q.consumer),
                   received := q.received + [cell.value]))
  {
    var sees := q.(receiver := Sees(q.consumer));
    AlwaysSafe(sees, ReadCell);
    ReadKeeps(sees);
    AdvanceKeeps(Next(sees, ReadCell));
  }

  class AffineSpscQueue<T> {
    const depth: nat
    const values: array<Option<T>>
    var producer: nat
    var consumer: nat
    ghost var sent: seq<T>
    ghost var received: seq<T>

    /** The state between operations: neither endpoint is in the middle of a step. */
    ghost function State(): Queue<T>
      reads this, values
    {
      Queue(depth, values[..], producer, consumer, Free, Idle, sent, received, 0)
    }

    ghost predicate Valid()
      reads this, values
    {
      values.Length == depth && Inv(State())
    }

    constructor (size: nat)
      requires size > 0
      ensures Valid() && fresh(values) && State() == Start(size)
    {
      depth := size;
      values := new Option<T>[size](_ => None);
      producer, consumer, sent, received := 0, 0, [], [];
      new;
      assert values[..] == seq(size, _ => None);
    }

    /** The storage that the endpoints of a run leave behind. */
    constructor Left(q: Queue<T>)
      requires Inv(q) && Quiescent(q)
      ensures Valid() && fresh(values) && State() == q.(promised := 0)
    {
      depth := q.depth;
      values := new Option<T>[q.depth](i requires 0 <= i < |q.cells| => q.cells[i]);
      producer, consumer, sent, received := q.producer, q.consumer, q.sent, q.received;
      new;
      assert values[..] == q.cells;
    }

    method SlotOf(cursor: nat) returns (slot: nat)
      requires depth > 0
      ensures slot == Rem(cursor, depth)
    {
      RemIsMod(cursor, depth);
      slot := cursor % depth;
    }

    method TrySend(value: T) returns (ok: bool)
      requires Valid()
      modifies this, values
      ensures Valid() && ok == (|old(sent)| < |old(received)| + depth)
      ensures received == old(received) && sent == if ok then old(sent) + [value] else old(sent)
    {
      ghost var was := State();
      DistanceIsCount(depth, |received|, |sent|);
      if CursorDistance(depth, consumer, producer) >= depth {
        return false;
      }
      SendKeeps(was, value);
      var slot := SlotOf(producer);
      values[slot] := Some(value);
      producer := Advance(depth, producer);
      sent := sent + [value];
      ok := true;
      assert values[..] == was.cells[slot := Some(value)];
    }

    method TryReceive() returns (value: Option<T>)
      requires Valid()
      modifies this, values
      ensures Valid() && sent == old(sent)
      ensures value.None? <==> |old(received)| == |sent|
      ensures received == if value.Some? then old(received) + [value.value] else old(received)
    {
      ghost var was := State();
      DistanceIsCount(depth, |received|, |sent|);
      if consumer == producer {
        return None;
      }
      ReceiveKeeps(was);
      var slot := SlotOf(consumer);
      value := values[slot];
      values[slot] := None;
      consumer := Advance(depth, consumer);
      received := received + [value.value];
      assert values[..] == was.cells[slot := None];
    }

    method Length() returns (length: nat)
      requires Valid()
      ensures length == |Queued(State())|
    {
      DistanceIsCount(depth, |received|, |sent|);
      var distance := CursorDistance(depth, consumer, producer);
      length := if distance < depth then distance else depth;
    }

    /** `Drop`: releases exactly the values still published, oldest first. */
    method Drain() returns (dropped: seq<T>)
      requires Valid()
      modifies this, values
      ensures Valid() && Queued(State()) == [] && dropped == Queued(old(State()))
    {
      dropped := [];
      DistanceIsCount(depth, |received|, |sent|);
      while consumer != producer
        invariant Valid() && sent == old(sent) && received == old(received) + dropped
        invariant consumer == producer <==> |received| == |sent|
        decreases |sent| - |received|
      {
        var value := TryReceive();
        dropped := dropped + [value.value];
        DistanceIsCount(depth, |received|, |sent|);
      }
    }
  }

  /** Dropping the queue after any run of its endpoints releases exactly what is still queued. */
  method DropAfterRun<T>(ghost states: seq<Queue<T>>, ghost actions: seq<Action<T>>, last: Queue<T>)
    returns (dropped: seq<T>)
    requires IsRun(states, actions) && last == states[|actions|] && Quiescent(last)
    ensures |last.received| <= |last.sent| && dropped == Queued(last)
  {
    RunKeeps(states, actions, |actions|);
    var queue := new AffineSpscQueue.Left(last);
    dropped := queue.Drain();
  }
}
