/**
 What a radio lease of the transmit pool gets to see (`publish` and `try_publish` of
 `crates/memory/src/pinned_tx.rs`). The writer is lent the frame area as earlier writers left it, so a
 frame shows nothing of a failed publication exactly if its own writer overwrites all it was lent.
 */
module TxPublication {
  import opened Wrappers
  import opened TxPool

  /** Position of the last successful write to `i`. */
  function LastWrite(actions: seq<Action>, i: nat): (j: Option<nat>)
    ensures j.Some? ==> j.value < |actions| && actions[j.value].Write? && actions[j.value].i == i && actions[j.value].ok
  {
    if actions == [] then None
    else
      var a := actions[|actions| - 1];
      if a.Write? && a.i == i && a.ok then Some(|actions| - 1) else LastWrite(actions[..|actions| - 1], i)
  }

  /** `frame` is what the last successful writer of `i` made of the bytes it was lent. */
  ghost predicate Origin(g: Geometry, n: nat, storage: Bytes, actions: seq<Action>, i: nat, frame: Bytes) {
    LastWrite(actions, i).Some? &&
    var j := LastWrite(actions, i).value;
    var w, was := actions[j], PoolAfter(g, n, storage, actions[..j]);
    i < |was.slots| && g.headroom + w.length <= |was.slots[i].storage| &&
      frame == w.write(Lent(g, was.slots[i], w.length))
  }

  /** A step leaves the frame an index carries alone, or is the successful write of it. */
  lemma FrameFromWrite(g: Geometry, s: Pool, a: Action, i: nat)
    requires Inv(g, s) && Enabled(g, s, a) && Asserts(s, a) && i < |s.places|
    ensures var after := Apply(g, s, a).places;
            |after| == |s.places| &&
            (HasFrame(after[i]) ==>
               if a.Write? && a.i == i && a.ok
               then g.headroom + a.length <= |s.slots[i].storage| &&
                 after[i].frame == a.write(Lent(g, s.slots[i], a.length))
               else HasFrame(s.places[i]) && after[i].frame == s.places[i].frame)
  {
    if OnQueue(a) {
      match a
      case TakeFree =>
      case TakeReady =>
      case PutFree(_) =>
      case PutReady(_) =>
    } else {
      PlaceFromWrite(g, s.slots[a.i], s.places[a.i], a);
    }
  }

  lemma PlaceFromWrite(g: Geometry, slot: Slot, p: Place, a: Action)
    requires Applicable(g, slot, p, a)
    ensures var after := PlaceAfter(g, slot, p, a);
            HasFrame(after) ==>
              if a.Write? then a.ok && after.frame == a.write(Lent(g, slot, a.length))
              else HasFrame(p) && after.frame == p.frame
  {
  }

  lemma {:induction false} FrameOrigin(g: Geometry, n: nat, storage: Bytes, actions: seq<Action>, i: nat)
    requires PoolRun(g, n, storage, actions) && i < n
    ensures var s := PoolAfter(g, n, storage, actions);
            |s.places| == n && (HasFrame(s.places[i]) ==> Origin(g, n, storage, actions, i, s.places[i].frame))
  {
    if actions != [] {
      var front, a := actions[..|actions| - 1], actions[|actions| - 1];
      FrameOrigin(g, n, storage, front, i);
      assert actions == front + [a];
      OriginNext(g, n, storage, front, a, i);
    }
  }

  lemma OriginNext(g: Geometry, n: nat, storage: Bytes, front: seq<Action>, a: Action, i: nat)
    requires PoolRun(g, n, storage, front) && Enabled(g, PoolAfter(g, n, storage, front), a) && i < n
    requires var s := PoolAfter(g, n, storage, front);
             |s.places| == n && (HasFrame(s.places[i]) ==> Origin(g, n, storage, front, i, s.places[i].frame))
    ensures var s := PoolAfter(g, n, storage, front + [a]);
            |s.places| == n && (HasFrame(s.places[i]) ==> Origin(g, n, storage, front + [a], i, s.places[i].frame))
  {
    var s := PoolAfter(g, n, storage, front);
    RunKeeps(g, n, storage, front);
    RunGoesOn(g, n, storage, front, a);
    FrameFromWrite(g, s, a, i);
    var p := Apply(g, s, a).places[i];
    if HasFrame(p) {
      if a.Write? && a.i == i && a.ok {
        OriginStarts(g, n, storage, front, a, i, p.frame);
      } else {
        OriginStays(g, n, storage, front, a, i, p.frame);
      }
    }
  }

  lemma OriginStarts(g: Geometry, n: nat, storage: Bytes, front: seq<Action>, a: Action, i: nat, frame: Bytes)
    requires a.Write? && a.i == i && a.ok
    requires var was := PoolAfter(g, n, storage, front);
             i < |was.slots| && g.headroom + a.length <= |was.slots[i].storage| &&
               frame == a.write(Lent(g, was.slots[i], a.length))
    ensures Origin(g, n, storage, front + [a], i, frame)
  {
    assert (front + [a])[..|front|] == front;
  }

  lemma OriginStays(g: Geometry, n: nat, storage: Bytes, front: seq<Action>, a: Action, i: nat, frame: Bytes)
    requires !(a.Write? && a.i == i && a.ok) && Origin(g, n, storage, front, i, frame)
    ensures Origin(g, n, storage, front + [a], i, frame)
  {
    LastWriteSame(front, a, i);
    var j := LastWrite(front, i).value;
    assert (front + [a])[..j] == front[..j];
  }

  lemma LastWriteSame(front: seq<Action>, a: Action, i: nat)
    requires !(a.Write? && a.i == i && a.ok)
    ensures LastWrite(front + [a], i) == LastWrite(front, i)
  {
    assert (front + [a])[..|front + [a]| - 1] == front;
  }

  // ------------------------------------------------------ what the radio sees

  /** A run that ends with a radio lease on `i`. */
  ghost predicate EndsInClaim(g: Geometry, n: nat, storage: Bytes, actions: seq<Action>, i: nat) {
    PoolRun(g, n, storage, actions) && actions != [] && actions[|actions| - 1] == ClaimRadio(i)
  }

  /** The frame the radio lease shows after `actions`. */
  ghost function Seen(g: Geometry, n: nat, storage: Bytes, actions: seq<Action>, i: nat): Bytes {
    var s := PoolAfter(g, n, storage, actions);
    if i < |s.slots| && g.headroom + s.slots[i].length <= |s.slots[i].storage| then Ethernet(g, s.slots[i]) else []
  }

  /** A radio lease receives exactly the frame that was published for the index it took. */
  lemma RadioReceivesFrame(g: Geometry, s: Pool, i: nat)
    requires Inv(g, s) && Enabled(g, s, ClaimRadio(i)) && Asserts(s, ClaimRadio(i))
    ensures var slot := Apply(g, s, ClaimRadio(i)).slots[i];
            g.headroom + slot.length <= |slot.storage| && Ethernet(g, slot) == s.places[i].frame
  {
    assert SlotHolds(g, s.slots[i], s.places[i]);
  }

  /** In every run a radio lease sees what the last successful writer of its slot made of the bytes that
      lay there. */
  lemma RadioReceivesLastWrite(g: Geometry, n: nat, storage: Bytes, actions: seq<Action>, i: nat)
    requires EndsInClaim(g, n, storage, actions, i)
    ensures Origin(g, n, storage, actions[..|actions| - 1], i, Seen(g, n, storage, actions, i))
  {
    var front := actions[..|actions| - 1];
    RunKeeps(g, n, storage, front);
    FrameOrigin(g, n, storage, front, i);
    RadioReceivesFrame(g, PoolAfter(g, n, storage, front), i);
  }

  /** What the writer leaves does not depend on what it found. */
  ghost predicate Overwrites(write: Bytes -> Bytes, length: nat) {
    forall a, b :: |a| == length && |b| == length ==> write(a) == write(b)
  }

  /** The frame shown is one that `write` published with `length`. */
  ghost predicate Published(g: Geometry, n: nat, storage: Bytes, actions: seq<Action>, i: nat, length: nat,
                            write: Bytes -> Bytes) {
    EndsInClaim(g, n, storage, actions, i) &&
    var front := actions[..|actions| - 1];
    LastWrite(front, i).Some? && front[LastWrite(front, i).value] == Write(i, length, write, true)
  }

  /** After an overwriting writer the frame is its own, whatever was written to the slot before. */
  lemma OverwrittenFrame(g: Geometry, n: nat, storage: Bytes, actions: seq<Action>, i: nat, length: nat,
                         write: Bytes -> Bytes, slice: Bytes)
    requires Published(g, n, storage, actions, i, length, write) && Overwrites(write, length) && |slice| == length
    ensures Seen(g, n, storage, actions, i) == write(slice)
  {
    RadioReceivesLastWrite(g, n, storage, actions, i);
  }

  /** The same steps, except for what failed publications wrote and over which length. */
  ghost predicate SameButFailed(xs: seq<Action>, ys: seq<Action>) {
    |xs| == |ys| &&
    forall k :: 0 <= k < |xs| ==>
      xs[k] == ys[k] || (xs[k].Write? && ys[k].Write? && xs[k].i == ys[k].i && !xs[k].ok && !ys[k].ok)
  }

  /** No frame that `write` publishes tells what a failed publication wrote. */
  ghost predicate HidesFailures(g: Geometry, n: nat, storage: Bytes, length: nat, write: Bytes -> Bytes) {
    forall i, xs, ys ::
      (Published(g, n, storage, xs, i, length, write) && Published(g, n, storage, ys, i, length, write) &&
        SameButFailed(xs, ys)) ==>
        Seen(g, n, storage, xs, i) == Seen(g, n, storage, ys, i)
  }

  /** Bytes of failed publications stay hidden exactly behind writers that overwrite what they are lent. */
  lemma FailuresHiddenIff(g: Geometry, n: nat, storage: Bytes, length: nat, write: Bytes -> Bytes)
    requires n > 0 && |storage| == g.headroom + g.capacity + g.trailer && length <= g.capacity && KeepsLength(write)
    ensures HidesFailures(g, n, storage, length, write) <==> Overwrites(write, length)
  {
    if Overwrites(write, length) {
      forall i, xs, ys | Published(g, n, storage, xs, i, length, write) &&
        Published(g, n, storage, ys, i, length, write)
                         && SameButFailed(xs, ys) ensures Seen(g, n, storage, xs, i) == Seen(g, n, storage, ys, i) {
        var slice := storage[..length];
        OverwrittenFrame(g, n, storage, xs, i, length, write, slice);
        OverwrittenFrame(g, n, storage, ys, i, length, write, slice);
      }
    } else {
      var a, b :| |a| == length && |b| == length && write(a) != write(b);
      FailureShows(g, n, storage, length, write, a, b);
    }
  }

  /** Two failed publications that the frame tells apart. */
  lemma FailureShows(g: Geometry, n: nat, storage: Bytes, length: nat, write: Bytes -> Bytes, a: Bytes, b: Bytes)
    requires n > 0 && |storage| == g.headroom + g.capacity + g.trailer && length <= g.capacity && KeepsLength(write)
    requires |a| == length && |b| == length && write(a) != write(b)
    ensures !HidesFailures(g, n, storage, length, write)
  {
    AttemptShows(g, n, storage, length, Fill(a), write);
    AttemptShows(g, n, storage, length, Fill(b), write);
    AttemptsAlike(length, Fill(a), Fill(b), write);
  }

  lemma AttemptsAlike(length: nat, failed: Bytes -> Bytes, other: Bytes -> Bytes, write: Bytes -> Bytes)
    ensures SameButFailed(Attempt(length, failed, write), Attempt(length, other, write))
  {
  }

  // ------------------------------------------------------ a failed publication, then one that succeeds

  /** A writer that leaves `frame` where it fits. */
  function Fill(frame: Bytes): Bytes -> Bytes {
    slice => if |slice| == |frame| then frame else slice
  }

  function Attempt(length: nat, failed: Bytes -> Bytes, write: Bytes -> Bytes): seq<Action> {
    Prelude(length, failed) + [Write(0, length, write, true)] + Delivery()
  }

  function Prelude(length: nat, failed: Bytes -> Bytes): seq<Action> {
    [TakeFree, ClaimNetwork(0), Write(0, length, failed, false)]
  }

  function Delivery(): seq<Action> {
    [StoreLength(0), PublishReady(0), PutReady(0), TakeReady, ClaimRadio(0)]
  }

  /** The step after a run, on the index of its holder. */
  lemma HolderGoesOn(g: Geometry, n: nat, storage: Bytes, actions: seq<Action>, a: Action)
    requires PoolRun(g, n, storage, actions) && !OnQueue(a) && Enabled(g, PoolAfter(g, n, storage, actions), a)
    ensures var s, after := PoolAfter(g, n, storage, actions), PoolAfter(g, n, storage, actions + [a]);
            PoolRun(g, n, storage, actions + [a]) && Inv(g, s) && |s.slots| == n &&
              |after.slots| == |after.places| == n && a.i < n &&
            Applicable(g, s.slots[a.i], s.places[a.i], a) &&
            after.slots[a.i] == SlotAfter(g, s.slots[a.i], s.places[a.i], a) &&
            after.places[a.i] == PlaceAfter(g, s.slots[a.i], s.places[a.i], a) && after.ready == s.ready
  {
    RunKeeps(g, n, storage, actions);
    RunGoesOn(g, n, storage, actions, a);
  }

  lemma IndexTaken(g: Geometry, n: nat, storage: Bytes)
    requires n > 0 && |storage| == g.headroom + g.capacity + g.trailer
    ensures var s := PoolAfter(g, n, storage, [TakeFree]);
            PoolRun(g, n, storage, [TakeFree]) && |s.slots| == |s.places| == n &&
            s.places[0] == FreeHand && s.slots[0].storage == storage && s.ready == []
  {
    RunGoesOn(g, n, storage, [], TakeFree);
    assert [] + [TakeFree] == [TakeFree];
  }

  lemma SlotLeased(g: Geometry, n: nat, storage: Bytes)
    requires n > 0 && |storage| == g.headroom + g.capacity + g.trailer
    ensures var actions := [TakeFree, ClaimNetwork(0)];
            var s := PoolAfter(g, n, storage, actions);
            PoolRun(g, n, storage, actions) && |s.slots| == |s.places| == n &&
            s.places[0] == Writing && s.slots[0].storage == storage && s.ready == []
  {
    IndexTaken(g, n, storage);
    HolderGoesOn(g, n, storage, [TakeFree], ClaimNetwork(0));
    assert [TakeFree] + [ClaimNetwork(0)] == [TakeFree, ClaimNetwork(0)];
  }

  lemma PreludeRuns(g: Geometry, n: nat, storage: Bytes, length: nat, failed: Bytes -> Bytes)
    requires n > 0 && |storage| == g.headroom + g.capacity + g.trailer && length <= g.capacity && KeepsLength(failed)
    ensures var actions := Prelude(length, failed);
            var s := PoolAfter(g, n, storage, actions);
            PoolRun(g, n, storage, actions) && |s.slots| == |s.places| == n && s.places[0] == Writing &&
              s.ready == [] &&
            |s.slots[0].storage| == |storage| &&
            Lent(g, s.slots[0], length) == failed(storage[g.headroom..g.headroom + length])
  {
    SlotLeased(g, n, storage);
    var leased, write := [TakeFree, ClaimNetwork(0)], Write(0, length, failed, false);
    HolderGoesOn(g, n, storage, leased, write);
    assert leased + [write] == Prelude(length, failed);
  }

  /** Once a frame is written, its lease can deliver it. */
  lemma DeliveryRuns(g: Geometry, n: nat, storage: Bytes, actions: seq<Action>)
    requires PoolRun(g, n, storage, actions)
    requires var s := PoolAfter(g, n, storage, actions);
             n > 0 && |s.places| == n && s.places[0].Written? && s.ready == []
    ensures PoolRun(g, n, storage, actions + Delivery())
  {
    HolderGoesOn(g, n, storage, actions, StoreLength(0));
    PublicationRuns(g, n, storage, actions + [StoreLength(0)]);
    assert actions + [StoreLength(0)] + [PublishReady(0), PutReady(0), TakeReady, ClaimRadio(0)] ==
           actions + Delivery();
  }

  lemma PublicationRuns(g: Geometry, n: nat, storage: Bytes, actions: seq<Action>)
    requires PoolRun(g, n, storage, actions)
    requires var s := PoolAfter(g, n, storage, actions);
             n > 0 && |s.places| == n && s.places[0].Measured? && s.ready == []
    ensures PoolRun(g, n, storage, actions + [PublishReady(0), PutReady(0), TakeReady, ClaimRadio(0)])
  {
    HolderGoesOn(g, n, storage, actions, PublishReady(0));
    QueueRuns(g, n, storage, actions + [PublishReady(0)]);
    assert actions + [PublishReady(0)] + [PutReady(0), TakeReady, ClaimRadio(0)]
           == actions + [PublishReady(0), PutReady(0), TakeReady, ClaimRadio(0)];
  }

  lemma QueueRuns(g: Geometry, n: nat, storage: Bytes, actions: seq<Action>)
    requires PoolRun(g, n, storage, actions)
    requires var s := PoolAfter(g, n, storage, actions);
             n > 0 && |s.places| == n && s.places[0].ReadyHand? && s.ready == []
    ensures PoolRun(g, n, storage, actions + [PutReady(0), TakeReady, ClaimRadio(0)])
  {
    RunGoesOn(g, n, storage, actions, PutReady(0));
    var one := actions + [PutReady(0)];
    RunGoesOn(g, n, storage, one, TakeReady);
    var two := one + [TakeReady];
    RunGoesOn(g, n, storage, two, ClaimRadio(0));
    assert two + [ClaimRadio(0)] == actions + [PutReady(0), TakeReady, ClaimRadio(0)];
  }

  /** After a failed publication the next one's frame is what its writer makes of the failed bytes. */
  lemma AttemptShows(g: Geometry, n: nat, storage: Bytes, length: nat, failed: Bytes -> Bytes, write: Bytes -> Bytes)
    requires n > 0 && |storage| == g.headroom + g.capacity + g.trailer && length <= g.capacity
    requires KeepsLength(failed) && KeepsLength(write)
    ensures var actions := Attempt(length, failed, write);
            Published(g, n, storage, actions, 0, length, write) &&
            Seen(g, n, storage, actions, 0) == write(failed(storage[g.headroom..g.headroom + length]))
  {
    var prelude, actions := Prelude(length, failed), Attempt(length, failed, write);
    PreludeRuns(g, n, storage, length, failed);
    HolderGoesOn(g, n, storage, prelude, Write(0, length, write, true));
    DeliveryRuns(g, n, storage, prelude + [Write(0, length, write, true)]);
    LastWriteOfAttempt(length, failed, write);
    RadioReceivesLastWrite(g, n, storage, actions, 0);
  }

  lemma LastWriteOfAttempt(length: nat, failed: Bytes -> Bytes, write: Bytes -> Bytes)
    ensures var actions := Attempt(length, failed, write);
            var front := actions[..|actions| - 1];
            actions[|actions| - 1] == ClaimRadio(0) && LastWrite(front, 0) == Some(3) &&
            front[3] == Write(0, length, write, true) && front[..3] == Prelude(length, failed)
  {
    var w := Prelude(length, failed) + [Write(0, length, write, true)];
    var x := w + [StoreLength(0)];
    var y := x + [PublishReady(0)];
    var z := y + [PutReady(0)];
    LastWriteSame(w, StoreLength(0), 0);
    LastWriteSame(x, PublishReady(0), 0);
    LastWriteSame(y, PutReady(0), 0);
    LastWriteSame(z, TakeReady, 0);
    var actions := Attempt(length, failed, write);
    assert actions[..|actions| - 1] == z + [TakeReady];
  }

  /** A publication that writes nothing shows the radio what a failed one wrote. */
  lemma FailedBytesLeak(g: Geometry, n: nat, storage: Bytes, secret: Bytes)
    requires n > 0 && |storage| == g.headroom + g.capacity + g.trailer && |secret| <= g.capacity
    ensures var actions := Attempt(|secret|, Fill(secret), slice => slice);
            EndsInClaim(g, n, storage, actions, 0) && Seen(g, n, storage, actions, 0) == secret
  {
    AttemptShows(g, n, storage, |secret|, Fill(secret), slice => slice);
  }
}
