/**
 The pinned transmit pool of `crates/memory/src/pinned_tx.rs` with the free and ready index queues its
 callers keep, as interleaved atomic steps. A place says who holds an index; a step on an index can be
 taken only by its holder, as the non-cloneable leases allow. No compare-exchange ever finds another
 state than it expects, every index is in exactly one place, and the radio receives the published
 frames, whole and in order.
 */
module TxPool {
  type Bytes = seq<bv8>

  datatype SlotState = Free | Network | Ready | Radio

  datatype Slot = Slot(state: SlotState, length: nat, storage: Bytes)

  datatype Geometry = Geometry(headroom: nat, capacity: nat, trailer: nat)

  datatype Place =
    | InFree
    | FreeHand
    | Writing
    | Written(frame: Bytes)
    | Measured(frame: Bytes)
    | ReadyHand(frame: Bytes)
    | InReady(frame: Bytes)
    | RadioHand(frame: Bytes)
    | Transmitting
    | Cleared
    | Lost(state: SlotState)

  /** `pushed` and `taken` are the frames put on and taken from the ready queue so far. */
  datatype Pool = Pool(slots: seq<Slot>, free: seq<nat>, ready: seq<nat>, places: seq<Place>, pushed: seq<Bytes>,
                       taken: seq<Bytes>)

  datatype Action =
    | TakeFree
    | PutFree(i: nat)
    | ClaimNetwork(i: nat)
    | Write(i: nat, length: nat, write: Bytes -> Bytes, ok: bool)
    | StoreLength(i: nat)
    | PublishReady(i: nat)
    | PutReady(i: nat)
    | TakeReady
    | ClaimRadio(i: nat)
    | Transmit(i: nat, storage: Bytes)
    | ClearLength(i: nat)
    | ReleaseRadio(i: nat, returned: bool)
    | ReleaseNetwork(i: nat, returned: bool)
    | Forget(i: nat)

  /** The state a slot has while its index is in `place`. */
  function StateOf(place: Place): SlotState {
    match place
    case InFree => Free
    case FreeHand => Free
    case Writing => Network
    case Written(_) => Network
    case Measured(_) => Network
    case ReadyHand(_) => Ready
    case InReady(_) => Ready
    case RadioHand(_) => Ready
    case Transmitting => Radio
    case Cleared => Radio
    case Lost(state) => state
  }

  // ------------------------------------------------------ steps

  /** A writer fills the slice it is lent and cannot change its length. */
  ghost predicate KeepsLength(write: Bytes -> Bytes) {
    forall slice :: |write(slice)| == |slice|
  }

  /** Whether `p` is the place from which `a` is taken. */
  ghost predicate Holder(g: Geometry, p: Place, a: Action) {
    match a
    case ClaimNetwork(_) => p.FreeHand?
    case Write(_, length, write, _) => p.Writing? && length <= g.capacity && KeepsLength(write)
    case StoreLength(_) => p.Written?
    case PublishReady(_) => p.Measured?
    case ClaimRadio(_) => p.RadioHand?
    case Transmit(_, storage) => p.Transmitting? && |storage| == g.headroom + g.capacity + g.trailer
    case ClearLength(_) => p.Transmitting?
    case ReleaseRadio(_, _) => p.Cleared?
    case ReleaseNetwork(_, _) => p.Writing?
    case Forget(_) => p.FreeHand? || p.Writing? || p.ReadyHand? || p.RadioHand? || p.Transmitting?
    case PutFree(_) => p.FreeHand?
    case PutReady(_) => p.ReadyHand?
    case _ => false
  }

  /** Whether somebody holds what the action needs. */
  ghost predicate Enabled(g: Geometry, s: Pool, a: Action) {
    match a
    case TakeFree => s.free != []
    case TakeReady => s.ready != []
    case _ => a.i < |s.places| && Holder(g, s.places[a.i], a)
  }

  /** The state the action's compare-exchange expects, if it has one. */
  predicate Asserts(s: Pool, a: Action)
    requires |s.slots| == |s.places|
  {
    match a
    case ClaimNetwork(i) => i < |s.slots| && s.slots[i].state == Free
    case PublishReady(i) => i < |s.slots| && s.slots[i].state == Network
    case ClaimRadio(i) => i < |s.slots| && s.slots[i].state == Ready
    case ReleaseRadio(i, _) => i < |s.slots| && s.slots[i].state == Radio
    case ReleaseNetwork(i, _) => i < |s.slots| && s.slots[i].state == Network
    case TakeFree => s.free != [] && s.free[0] < |s.slots|
    case TakeReady => s.ready != [] && s.ready[0] < |s.slots| && s.places[s.ready[0]].InReady?
    case _ => true
  }

  /** `storage` with `frame` at `at`. */
  function Overwrite(storage: Bytes, at: nat, frame: Bytes): (r: Bytes)
    requires at + |frame| <= |storage|
    ensures |r| == |storage| && r[at..at + |frame|] == frame
    ensures forall k :: 0 <= k < at || at + |frame| <= k < |r| ==> r[k] == storage[k]
  {
    storage[..at] + frame + storage[at + |frame|..]
  }

  /** The first `length` bytes of the frame area, as they are. */
  function Lent(g: Geometry, slot: Slot, length: nat): (slice: Bytes)
    requires g.headroom + length <= |slot.storage|
    ensures |slice| == length
  {
    slot.storage[g.headroom..g.headroom + length]
  }

  function Put(s: Pool, i: nat, slot: Slot, place: Place): Pool
    requires i < |s.slots| == |s.places|
  {
    s.(slots := s.slots[i := slot], places := s.places[i := place])
  }

  /** A step that moves an index on or off a queue. */
  predicate OnQueue(a: Action) {
    a.TakeFree? || a.PutFree? || a.TakeReady? || a.PutReady?
  }

  /** What the operations need of the slot and the place they act on. */
  ghost predicate Applicable(g: Geometry, slot: Slot, p: Place, a: Action) {
    !OnQueue(a) && Holder(g, p, a) && |slot.storage| == g.headroom + g.capacity + g.trailer
  }

  /** What a step of a holder does to its slot. */
  ghost function SlotAfter(g: Geometry, slot: Slot, p: Place, a: Action): Slot
    requires Applicable(g, slot, p, a)
  {
    match a
    case ClaimNetwork(_) => slot.(state := Network)
    case Write(_, length, write, _) =>
      slot.(storage := Overwrite(slot.storage, g.headroom, write(Lent(g, slot, length))))
    case StoreLength(_) => slot.(length := |p.frame|)
    case PublishReady(_) => slot.(state := Ready)
    case ClaimRadio(_) => slot.(state := Radio)
    case Transmit(_, storage) => slot.(storage := storage)
    case ClearLength(_) => slot.(length := 0)
    case ReleaseRadio(_, _) => slot.(state := Free)
    case ReleaseNetwork(_, _) => slot.(state := Free)
    case Forget(_) => slot
  }

  ghost function PlaceAfter(g: Geometry, slot: Slot, p: Place, a: Action): Place
    requires Applicable(g, slot, p, a)
  {
    match a
    case ClaimNetwork(_) => Writing
    case Write(_, length, write, ok) => if ok then Written(write(Lent(g, slot, length))) else Writing
    case StoreLength(_) => Measured(p.frame)
    case PublishReady(_) => ReadyHand(p.frame)
    case ClaimRadio(_) => Transmitting
    case Transmit(_, _) => Transmitting
    case ClearLength(_) => Cleared
    case ReleaseRadio(_, returned) => if returned then FreeHand else Lost(Free)
    case ReleaseNetwork(_, returned) => if returned then FreeHand else Lost(Free)
    case Forget(_) => Lost(StateOf(p))
  }

  ghost function Apply(g: Geometry, s: Pool, a: Action): Pool
    requires Sized(g, s) && Enabled(g, s, a) && Asserts(s, a)
  {
    match a
    case TakeFree => s.(free := s.free[1..], places := s.places[s.free[0] := FreeHand])
    case PutFree(i) => s.(free := s.free + [i], places := s.places[i := InFree])
    case PutReady(i) =>
      s.(ready := s.ready + [i], places := s.places[i := InReady(s.places[i].frame)],
         pushed := s.pushed + [s.places[i].frame])
    case TakeReady =>
      var i := s.ready[0];
      s.(ready := s.ready[1..], places := s.places[i := RadioHand(s.places[i].frame)],
         taken := s.taken + [s.places[i].frame])
    case _ =>
      var slot, p := s.slots[a.i], s.places[a.i];
      Put(s, a.i, SlotAfter(g, slot, p, a), PlaceAfter(g, slot, p, a))
  }

  function Initial(g: Geometry, n: nat, storage: Bytes): Pool {
    Pool(seq(n, _ => Slot(Free, 0, storage)), seq(n, k => k), [], seq(n, _ => InFree), [], [])
  }

  // ------------------------------------------------------ invariant

  ghost predicate Sized(g: Geometry, s: Pool) {
    |s.slots| == |s.places| &&
    forall i :: 0 <= i < |s.slots| ==> |s.slots[i].storage| == g.headroom + g.capacity + g.trailer
  }

  ghost predicate StatesAgree(s: Pool) {
    forall i :: 0 <= i < |s.slots| && i < |s.places| ==> s.slots[i].state == StateOf(s.places[i])
  }

  /** A queue names exactly the indices whose place is in it, each once. */
  ghost predicate QueueIs(queue: seq<nat>, places: seq<Place>, inQueue: Place -> bool) {
    && (forall i, j :: 0 <= i < j < |queue| ==> queue[i] != queue[j])
    && (forall i :: 0 <= i < |queue| ==> queue[i] < |places| && inQueue(places[queue[i]]))
    && (forall i :: 0 <= i < |places| && inQueue(places[i]) ==> i in queue)
  }

  predicate IsInFree(p: Place) {
    p.InFree?
  }

  predicate IsInReady(p: Place) {
    p.InReady?
  }

  predicate HasFrame(p: Place) {
    p.Written? || p.Measured? || p.ReadyHand? || p.InReady? || p.RadioHand?
  }

  function Ethernet(g: Geometry, slot: Slot): Bytes
    requires g.headroom + slot.length <= |slot.storage|
  {
    slot.storage[g.headroom..g.headroom + slot.length]
  }

  /** Places whose slot shows no bytes. */
  predicate Blank(p: Place) {
    p.InFree? || p.FreeHand? || p.Writing? || p.Written? || p.Cleared?
  }

  /** A slot whose index carries a frame stores it, and from publication on its length; the length is zero
      again before the slot is free. */
  ghost predicate SlotHolds(g: Geometry, slot: Slot, p: Place) {
    && (HasFrame(p) ==>
          && |p.frame| <= g.capacity && g.headroom + |p.frame| <= |slot.storage|
          && slot.storage[g.headroom..g.headroom + |p.frame|] == p.frame
          && (p.Written? || slot.length == |p.frame|))
    && (Blank(p) ==> slot.length == 0)
  }

  ghost predicate FramesHeld(g: Geometry, s: Pool) {
    forall i :: 0 <= i < |s.slots| && i < |s.places| ==> SlotHolds(g, s.slots[i], s.places[i])
  }

  /** The frames waiting in the ready queue. */
  function Waiting(ready: seq<nat>, places: seq<Place>): seq<Bytes>
    requires forall k :: 0 <= k < |ready| ==> ready[k] < |places| && places[ready[k]].InReady?
  {
    if ready == [] then [] else [places[ready[0]].frame] + Waiting(ready[1..], places)
  }

  ghost predicate Inv(g: Geometry, s: Pool) {
    && Sized(g, s)
    && StatesAgree(s)
    && QueueIs(s.free, s.places, IsInFree)
    && QueueIs(s.ready, s.places, IsInReady)
    && FramesHeld(g, s)
    && s.taken + Waiting(s.ready, s.places) == s.pushed
  }

  lemma InitialHolds(g: Geometry, n: nat, storage: Bytes)
    requires |storage| == g.headroom + g.capacity + g.trailer
    ensures Inv(g, Initial(g, n, storage))
  {
    var s := Initial(g, n, storage);
    forall i | 0 <= i < n ensures i in s.free {
      assert s.free[i] == i;
    }
  }

  // ------------------------------------------------------ queues under a step

  lemma QueueUntouched(queue: seq<nat>, places: seq<Place>, inQueue: Place -> bool, i: nat, place: Place)
    requires QueueIs(queue, places, inQueue) && i < |places| && !inQueue(places[i]) && !inQueue(place)
    ensures QueueIs(queue, places[i := place], inQueue)
  {
  }

  lemma QueuePopped(queue: seq<nat>, places: seq<Place>, inQueue: Place -> bool, place: Place)
    requires QueueIs(queue, places, inQueue) && queue != [] && !inQueue(place)
    ensures queue[0] < |places| && QueueIs(queue[1..], places[queue[0] := place], inQueue)
  {
    var after := places[queue[0] := place];
    forall i | 0 <= i < |after| && inQueue(after[i]) ensures i in queue[1..] {
      assert i in queue && i != queue[0];
      assert queue == [queue[0]] + queue[1..];
    }
  }

  lemma QueuePushed(queue: seq<nat>, places: seq<Place>, inQueue: Place -> bool, i: nat, place: Place)
    requires QueueIs(queue, places, inQueue) && i < |places| && !inQueue(places[i]) && inQueue(place)
    ensures QueueIs(queue + [i], places[i := place], inQueue)
  {
    var after, longer := places[i := place], queue + [i];
    forall j | 0 <= j < |after| && inQueue(after[j]) ensures j in longer {
      if j != i {
        assert j in queue;
      }
    }
  }

  lemma {:induction false} WaitingSame(ready: seq<nat>, places: seq<Place>, i: nat, place: Place)
    requires forall k :: 0 <= k < |ready| ==> ready[k] < |places| && places[ready[k]].InReady? && ready[k] != i
    requires i < |places|
    ensures Waiting(ready, places[i := place]) == Waiting(ready, places)
  {
    if ready != [] {
      WaitingSame(ready[1..], places, i, place);
    }
  }

  lemma {:induction false} WaitingPushed(ready: seq<nat>, places: seq<Place>, i: nat)
    requires forall k :: 0 <= k < |ready| ==> ready[k] < |places| && places[ready[k]].InReady?
    requires i < |places| && places[i].InReady?
    ensures Waiting(ready + [i], places) == Waiting(ready, places) + [places[i].frame]
  {
    if ready == [] {
      assert [i][1..] == [];
    } else {
      assert (ready + [i])[1..] == ready[1..] + [i];
      WaitingPushed(ready[1..], places, i);
    }
  }

  // ------------------------------------------------------ every step keeps the invariant

  /** A step on one index that is in neither queue, before or after. */
  lemma PutKeeps(g: Geometry, s: Pool, i: nat, slot: Slot, place: Place)
    requires Inv(g, s) && i < |s.slots|
    requires !s.places[i].InFree? && !s.places[i].InReady? && !place.InFree? && !place.InReady?
    requires slot.state == StateOf(place) && |slot.storage| == |s.slots[i].storage| && SlotHolds(g, slot, place)
    ensures Inv(g, Put(s, i, slot, place))
  {
    QueueUntouched(s.free, s.places, IsInFree, i, place);
    QueueUntouched(s.ready, s.places, IsInReady, i, place);
    WaitingSame(s.ready, s.places, i, place);
  }

  lemma TakeFreeKeeps(g: Geometry, s: Pool)
    requires Inv(g, s) && s.free != []
    ensures s.free[0] < |s.places| && Inv(g, s.(free := s.free[1..], places := s.places[s.free[0] := FreeHand]))
  {
    QueuePopped(s.free, s.places, IsInFree, FreeHand);
    QueueUntouched(s.ready, s.places, IsInReady, s.free[0], FreeHand);
    WaitingSame(s.ready, s.places, s.free[0], FreeHand);
  }

  lemma PutFreeKeeps(g: Geometry, s: Pool, i: nat)
    requires Inv(g, s) && i < |s.places| && s.places[i].FreeHand?
    ensures Inv(g, s.(free := s.free + [i], places := s.places[i := InFree]))
  {
    QueuePushed(s.free, s.places, IsInFree, i, InFree);
    QueueUntouched(s.ready, s.places, IsInReady, i, InFree);
    WaitingSame(s.ready, s.places, i, InFree);
  }

  lemma {:induction false} PutReadyKeeps(g: Geometry, s: Pool, i: nat)
    requires Inv(g, s) && i < |s.places| && s.places[i].ReadyHand?
    ensures var frame := s.places[i].frame;
            Inv(g, s.(ready := s.ready + [i], places := s.places[i := InReady(frame)], pushed := s.pushed + [frame]))
  {
    var place := InReady(s.places[i].frame);
    QueuePushed(s.ready, s.places, IsInReady, i, place);
    QueueUntouched(s.free, s.places, IsInFree, i, place);
    WaitingSame(s.ready, s.places, i, place);
    WaitingPushed(s.ready, s.places[i := place], i);
  }

  lemma {:induction false} TakeReadyKeeps(g: Geometry, s: Pool)
    requires Inv(g, s) && s.ready != []
    ensures var i := s.ready[0];
            i < |s.places| && s.places[i].InReady? &&
            Inv(g, s.(ready := s.ready[1..], places := s.places[i := RadioHand(s.places[i].frame)],
                      taken := s.taken + [s.places[i].frame]))
  {
    var i := s.ready[0];
    var place := RadioHand(s.places[i].frame);
    QueuePopped(s.ready, s.places, IsInReady, place);
    QueueUntouched(s.free, s.places, IsInFree, i, place);
    WaitingSame(s.ready[1..], s.places, i, place);
  }

  /** In every state of every run, the compare-exchange of a step that its holder may take succeeds. */
  lemma AssertionsHold(g: Geometry, s: Pool, a: Action)
    requires Inv(g, s) && Enabled(g, s, a)
    ensures Asserts(s, a)
  {
  }

  lemma ApplyKeeps(g: Geometry, s: Pool, a: Action)
    requires Inv(g, s) && Enabled(g, s, a) && Asserts(s, a)
    ensures Inv(g, Apply(g, s, a))
  {
    if OnQueue(a) {
      QueueKeeps(g, s, a);
    } else {
      HolderKeeps(g, s, a);
    }
  }

  lemma QueueKeeps(g: Geometry, s: Pool, a: Action)
    requires Inv(g, s) && Enabled(g, s, a) && Asserts(s, a) && OnQueue(a)
    ensures Inv(g, Apply(g, s, a))
  {
    match a
    case TakeFree => TakeFreeKeeps(g, s);
    case PutFree(i) => PutFreeKeeps(g, s, i);
    case PutReady(i) => PutReadyKeeps(g, s, i);
    case TakeReady => TakeReadyKeeps(g, s);
  }

  lemma HolderKeeps(g: Geometry, s: Pool, a: Action)
    requires Inv(g, s) && Enabled(g, s, a) && !OnQueue(a)
    ensures Asserts(s, a) && Inv(g, Apply(g, s, a))
  {
    var slot, p := s.slots[a.i], s.places[a.i];
    SlotKeeps(g, slot, p, a);
    PutKeeps(g, s, a.i, SlotAfter(g, slot, p, a), PlaceAfter(g, slot, p, a));
  }

  lemma SlotKeeps(g: Geometry, slot: Slot, p: Place, a: Action)
    requires Applicable(g, slot, p, a) && slot.state == StateOf(p) && SlotHolds(g, slot, p)
    ensures var after, place := SlotAfter(g, slot, p, a), PlaceAfter(g, slot, p, a);
            !p.InFree? && !p.InReady? && !place.InFree? && !place.InReady? &&
            after.state == StateOf(place) && |after.storage| == |slot.storage| && SlotHolds(g, after, place)
  {
  }

  // ------------------------------------------------------ runs

  /** The state after `actions`. A step whose assertion fails would end the run where it is. */
  ghost function After(g: Geometry, start: Pool, actions: seq<Action>): Pool {
    if actions == [] then start
    else
      var s, a := After(g, start, actions[..|actions| - 1]), actions[|actions| - 1];
      if Sized(g, s) && Enabled(g, s, a) && Asserts(s, a) then Apply(g, s, a) else s
  }

  /** Every step is taken by a holder. */
  ghost predicate IsRun(g: Geometry, start: Pool, actions: seq<Action>) {
    actions == [] ||
    (IsRun(g, start, actions[..|actions| - 1]) &&
      Enabled(g, After(g, start, actions[..|actions| - 1]), actions[|actions| - 1]))
  }

  /** Runs of a pool of `n` slots whose storage held `storage`. */
  ghost predicate PoolRun(g: Geometry, n: nat, storage: Bytes, actions: seq<Action>) {
    |storage| == g.headroom + g.capacity + g.trailer && IsRun(g, Initial(g, n, storage), actions)
  }

  /** The state every run of the pool ends in. */
  ghost function PoolAfter(g: Geometry, n: nat, storage: Bytes, actions: seq<Action>): Pool {
    After(g, Initial(g, n, storage), actions)
  }

  lemma SizeKept(g: Geometry, s: Pool, a: Action)
    requires Inv(g, s) && Enabled(g, s, a) && Asserts(s, a)
    ensures |Apply(g, s, a).slots| == |s.slots|
  {
  }

  /** Every run keeps the invariant, and whatever step a holder takes next, its assertion holds. */
  lemma {:induction false} RunKeeps(g: Geometry, n: nat, storage: Bytes, actions: seq<Action>)
    requires PoolRun(g, n, storage, actions)
    ensures var s := PoolAfter(g, n, storage, actions);
            Inv(g, s) && |s.slots| == n && forall a :: Enabled(g, s, a) ==> Asserts(s, a)
  {
    if actions == [] {
      InitialHolds(g, n, storage);
    } else {
      var front, a := actions[..|actions| - 1], actions[|actions| - 1];
      RunKeeps(g, n, storage, front);
      ApplyKeeps(g, PoolAfter(g, n, storage, front), a);
      SizeKept(g, PoolAfter(g, n, storage, front), a);
    }
    forall a | Enabled(g, PoolAfter(g, n, storage, actions), a) ensures Asserts(PoolAfter(g, n, storage, actions), a) {
      AssertionsHold(g, PoolAfter(g, n, storage, actions), a);
    }
  }

  /** A run goes on with any step a holder can take. */
  lemma RunGoesOn(g: Geometry, n: nat, storage: Bytes, actions: seq<Action>, a: Action)
    requires PoolRun(g, n, storage, actions) && Enabled(g, PoolAfter(g, n, storage, actions), a)
    ensures var s := PoolAfter(g, n, storage, actions);
            PoolRun(g, n, storage, actions + [a]) && Sized(g, s) && Asserts(s, a) &&
            PoolAfter(g, n, storage, actions + [a]) == Apply(g, s, a)
  {
    RunKeeps(g, n, storage, actions);
    assert (actions + [a])[..|actions + [a]| - 1] == actions;
  }

  /** In every run frames leave the ready queue in the order they entered it, and those not taken yet are
      those waiting. */
  lemma FramesInOrder(g: Geometry, n: nat, storage: Bytes, actions: seq<Action>)
    requires PoolRun(g, n, storage, actions)
    ensures var s := PoolAfter(g, n, storage, actions);
            QueueIs(s.ready, s.places, IsInReady) && s.pushed == s.taken + Waiting(s.ready, s.places)
  {
    RunKeeps(g, n, storage, actions);
  }

  /** In every run a slot's state says who holds it, and a slot that is free or being written shows no bytes. */
  lemma HolderByState(g: Geometry, n: nat, storage: Bytes, actions: seq<Action>, i: nat)
    requires PoolRun(g, n, storage, actions) && i < n
    ensures var s := PoolAfter(g, n, storage, actions);
            i < |s.slots| && i < |s.places| &&
            var slot, p := s.slots[i], s.places[i];
            !p.Lost? ==>
              (slot.state == Free <==> p.InFree? || p.FreeHand?) &&
              (slot.state == Network <==> p.Writing? || p.Written? || p.Measured?) &&
              (slot.state == Ready <==> p.ReadyHand? || p.InReady? || p.RadioHand?) &&
              (slot.state == Radio <==> p.Transmitting? || p.Cleared?) &&
              (slot.state == Free || p.Writing? || p.Cleared? ==> slot.length == 0)
  {
    RunKeeps(g, n, storage, actions);
    var s := PoolAfter(g, n, storage, actions);
    assert SlotHolds(g, s.slots[i], s.places[i]);
  }

  /** In every run a queue of one entry for each slot is large enough. */
  lemma QueuesFit(g: Geometry, n: nat, storage: Bytes, actions: seq<Action>)
    requires PoolRun(g, n, storage, actions)
    ensures var s := PoolAfter(g, n, storage, actions);
            |s.free| <= n && |s.ready| <= n
  {
    RunKeeps(g, n, storage, actions);
    var s := PoolAfter(g, n, storage, actions);
    FewerThan(s.free, n);
    FewerThan(s.ready, n);
  }

  lemma {:induction false} FewerThan(queue: seq<nat>, n: nat)
    requires forall i, j :: 0 <= i < j < |queue| ==> queue[i] != queue[j]
    requires forall i :: 0 <= i < |queue| ==> queue[i] < n
    ensures |queue| <= n
    decreases n
  {
    if queue != [] {
      SomeBelow(queue, n);
      if n - 1 in queue {
        var k :| 0 <= k < |queue| && queue[k] == n - 1;
        FewerThan(queue[..k] + queue[k + 1..], n - 1);
      } else {
        FewerThan(queue, n - 1);
      }
    }
  }

  lemma SomeBelow(queue: seq<nat>, n: nat)
    requires queue != [] && forall i :: 0 <= i < |queue| ==> queue[i] < n
    ensures n > 0
  {
    assert queue[0] < n;
  }
}
