/**
 The external receive handoff of `crates/memory/src/rx_external_handoff.rs` as interleaved atomic steps.
 A place says who holds a slot and which buffer; only that holder can take the slot's next step. Every
 buffer's release callback runs at most once and before its slot is free again, so the buffers retained
 never outnumber the slots.
 */
module ExternalRx {
  import opened Wrappers
  import opened Arithmetic
  import opened Sets

  datatype SlotState = Free | Network | Ready | Radio | Releasing

  datatype Slot = Slot(state: SlotState, binding: Option<nat>, offset: nat, length: nat)

  datatype Place =
    | Vacant
    | Claiming(b: nat)
    | RadioHeld(b: nat)
    | RadioRanged(b: nat)
    | Published(b: nat)
    | NetworkHeld(b: nat)
    | NetworkRanged(b: nat)
    | Leaving(b: nat)
    | TakenOut(b: nat)
    | Dropped(b: nat)

  /** A buffer looking for a slot: where its scan starts and how many slots it tried. */
  datatype Scan = Scan(start: nat, tried: nat)

  /** `lengths` are the initialized bytes of every buffer; `claimed` the buffers a slot ever took;
      `released` the callbacks run, in order. */
  datatype Handoff = Handoff(slots: seq<Slot>, places: seq<Place>, hands: map<nat, Scan>, lengths: map<nat, nat>,
                             claimed: set<nat>, released: seq<nat>)

  datatype Action =
    | Detach(b: nat, length: nat, start: nat)
    | TryClaim(b: nat)
    | Retry(b: nat, start: nat)
    | DropHand(b: nat)
    | Bind(i: nat)
    | SetRange(i: nat, offset: nat, length: nat)
    | Publish(i: nat)
    | ClaimNetwork(i: nat)
    | BeginRelease(i: nat)
    | TakeOut(i: nat)
    | RunCallback(i: nat)
    | StoreFree(i: nat)

  function StateOf(p: Place): SlotState {
    match p
    case Vacant => Free
    case Claiming(_) => Radio
    case RadioHeld(_) => Radio
    case RadioRanged(_) => Radio
    case Published(_) => Ready
    case NetworkHeld(_) => Network
    case NetworkRanged(_) => Network
    case Leaving(_) => Releasing
    case TakenOut(_) => Releasing
    case Dropped(_) => Releasing
  }

  /** Places whose slot holds its buffer in the cell. */
  predicate Bound(p: Place) {
    p.RadioHeld? || p.RadioRanged? || p.Published? || p.NetworkHeld? || p.NetworkRanged? || p.Leaving?
  }

  /** The buffer of a place whose callback has not run. */
  function Owner(p: Place): Option<nat> {
    if p.Vacant? || p.Dropped? then None else Some(p.b)
  }

  // ------------------------------------------------------ steps of a slot's holder

  predicate OnSlot(a: Action) {
    !a.Detach? && !a.TryClaim? && !a.Retry? && !a.DropHand?
  }

  predicate Holder(p: Place, a: Action)
    requires OnSlot(a)
  {
    match a
    case Bind(_) => p.Claiming?
    case SetRange(_, _, _) => p.RadioHeld? || p.NetworkHeld?
    case Publish(_) => p.RadioRanged? || p.NetworkRanged?
    case ClaimNetwork(_) => p.Published?
    case BeginRelease(_) => p.RadioHeld? || p.NetworkHeld?
    case TakeOut(_) => p.Leaving?
    case RunCallback(_) => p.TakenOut?
    case StoreFree(_) => p.Dropped?
  }

  /** What the step's compare-exchange expects and what its accesses need. */
  predicate Asserts(slot: Slot, p: Place, a: Action)
    requires OnSlot(a) && Holder(p, a)
  {
    match a
    case Publish(_) => slot.state == if p.RadioRanged? then Radio else Network
    case ClaimNetwork(_) => slot.state == Ready
    case BeginRelease(_) => slot.state == if p.RadioHeld? then Radio else Network
    case SetRange(_, _, _) => slot.binding == Some(p.b)
    case TakeOut(_) => slot.binding == Some(p.b)
    case Bind(_) => slot.binding == None
    case _ => true
  }

  function SlotAfter(slot: Slot, p: Place, length: nat, a: Action): Slot
    requires OnSlot(a) && Holder(p, a)
  {
    match a
    case Bind(_) => slot.(binding := Some(p.b), offset := 0, length := length)
    case SetRange(_, o, l) => slot.(offset := o, length := l)
    case Publish(_) => slot.(state := Ready)
    case ClaimNetwork(_) => slot.(state := Network)
    case BeginRelease(_) => slot.(state := Releasing)
    case TakeOut(_) => slot.(binding := None, offset := 0, length := 0)
    case RunCallback(_) => slot
    case StoreFree(_) => slot.(state := Free)
  }

  function PlaceAfter(p: Place, a: Action): Place
    requires OnSlot(a) && Holder(p, a)
  {
    match a
    case Bind(_) => RadioHeld(p.b)
    case SetRange(_, _, _) => if p.RadioHeld? then RadioRanged(p.b) else NetworkRanged(p.b)
    case Publish(_) => Published(p.b)
    case ClaimNetwork(_) => NetworkHeld(p.b)
    case BeginRelease(_) => Leaving(p.b)
    case TakeOut(_) => TakenOut(p.b)
    case RunCallback(_) => Dropped(p.b)
    case StoreFree(_) => Vacant
  }

  // ------------------------------------------------------ steps of the pool

  predicate Enabled(s: Handoff, a: Action) {
    match a
    case Detach(b, _, _) => b !in s.lengths
    case TryClaim(b) => b in s.hands && s.hands[b].tried < |s.slots| <= 256
    case Retry(b, _) => b in s.hands
    case DropHand(b) => b in s.hands
    case SetRange(i, o, l) =>
      i < |s.places| && Holder(s.places[i], a) && s.places[i].b in s.lengths && o + l <= s.lengths[s.places[i].b]
    case _ => a.i < |s.places| && Holder(s.places[a.i], a)
  }

  /** The slot a scan tries next. */
  function Candidate(s: Handoff, scan: Scan): (i: nat)
    requires |s.slots| > 0
    ensures i < |s.slots|
  {
    Try(scan.start, |s.slots|, scan.tried)
  }

  /** The slot tried at `distance` from `start`. */
  function Try(start: nat, n: nat, distance: nat): (i: nat)
    requires n > 0
    ensures i < n
  {
    Rem(start + distance, n)
  }

  function LengthOf(s: Handoff, p: Place): nat {
    if !p.Vacant? && p.b in s.lengths then s.lengths[p.b] else 0
  }

  function Apply(s: Handoff, a: Action): Handoff
    requires |s.slots| == |s.places| && Enabled(s, a)
  {
    match a
    case Detach(b, length, start) => s.(hands := s.hands[b := Scan(start, 0)], lengths := s.lengths[b := length])
    case TryClaim(b) =>
      var scan := s.hands[b];
      var i := Candidate(s, scan);
      if s.slots[i].state == Free
      then s.(hands := s.hands - {b}, claimed := s.claimed + {b},
              slots := s.slots[i := s.slots[i].(state := Radio)], places := s.places[i := Claiming(b)])
      else s.(hands := s.hands[b := Scan(scan.start, scan.tried + 1)])
    case Retry(b, start) => s.(hands := s.hands[b := Scan(start, 0)])
    case DropHand(b) => s.(hands := s.hands - {b}, released := s.released + [b])
    case RunCallback(i) => s.(places := s.places[i := PlaceAfter(s.places[i], a)],
                              released := s.released + [s.places[i].b])
    case _ =>
      var p := s.places[a.i];
      s.(slots := s.slots[a.i := SlotAfter(s.slots[a.i], p, LengthOf(s, p), a)],
         places := s.places[a.i := PlaceAfter(p, a)])
  }

  function Initial(n: nat): Handoff {
    Handoff(seq(n, _ => Slot(Free, None, 0, 0)), seq(n, _ => Vacant), map[], map[], {}, [])
  }

  // ------------------------------------------------------ invariant

  /** A slot is in the state its place says, binds exactly the buffer it holds, and shows only
      initialized bytes of it, all of them until it is given a range. */
  ghost predicate SlotAgrees(slot: Slot, p: Place, lengths: map<nat, nat>) {
    && slot.state == StateOf(p)
    && slot.binding == (if Bound(p) then Some(p.b) else None)
    && (Bound(p) ==> p.b in lengths && slot.offset + slot.length <= lengths[p.b])
    && (p.RadioHeld? ==> slot.offset == 0 && slot.length == lengths[p.b])
  }

  ghost predicate SlotsAgree(s: Handoff) {
    |s.slots| == |s.places| &&
    forall i :: 0 <= i < |s.slots| ==> SlotAgrees(s.slots[i], s.places[i], s.lengths)
  }

  /** A buffer waits in one slot at most, and not elsewhere. */
  ghost predicate OwnersApart(places: seq<Place>) {
    forall i, j :: 0 <= i < j < |places| && Owner(places[i]).Some? ==> Owner(places[i]) != Owner(places[j])
  }

  ghost predicate OwnersHeld(s: Handoff) {
    forall i :: 0 <= i < |s.places| && Owner(s.places[i]).Some? ==>
      var b := Owner(s.places[i]).value;
      b in s.lengths && b in s.claimed && b !in s.hands && b !in s.released
  }

  ghost predicate NoRepeats(xs: seq<nat>) {
    forall i, j :: 0 <= i < j < |xs| ==> xs[i] != xs[j]
  }

  ghost predicate HandsFree(s: Handoff) {
    forall b :: b in s.hands ==> b in s.lengths && b !in s.claimed && b !in s.released
  }

  /** Every buffer a slot took was released or is still in a slot. */
  ghost predicate Accounted(s: Handoff) {
    forall b :: b in s.claimed && b !in s.released ==> exists i :: 0 <= i < |s.places| && Owner(s.places[i]) == Some(b)
  }

  /** A slot on its way to free has had its buffer's callback. */
  ghost predicate DroppedReleased(s: Handoff) {
    forall i :: 0 <= i < |s.places| && s.places[i].Dropped? ==> s.places[i].b in s.released
  }

  ghost predicate KnownLengths(s: Handoff) {
    && (forall b :: b in s.claimed ==> b in s.lengths)
    && (forall b :: b in s.released ==> b in s.lengths)
  }

  ghost predicate Inv(s: Handoff) {
    && SlotsAgree(s) && OwnersApart(s.places) && OwnersHeld(s) && HandsFree(s)
    && NoRepeats(s.released) && Accounted(s) && DroppedReleased(s) && KnownLengths(s)
  }

  lemma InitialHolds(n: nat)
    ensures Inv(Initial(n))
  {
  }

  // ------------------------------------------------------ every step keeps the invariant

  /** A slot's holder finds the state and the binding it expects. */
  lemma AssertionsHold(s: Handoff, a: Action)
    requires Inv(s) && Enabled(s, a) && OnSlot(a)
    ensures a.i < |s.slots| && Holder(s.places[a.i], a) && Asserts(s.slots[a.i], s.places[a.i], a)
  {
    assert SlotAgrees(s.slots[a.i], s.places[a.i], s.lengths);
  }

  lemma SlotKeeps(slot: Slot, p: Place, lengths: map<nat, nat>, length: nat, a: Action)
    requires OnSlot(a) && Holder(p, a) && SlotAgrees(slot, p, lengths)
    requires !p.Dropped? ==> p.b in lengths && length == lengths[p.b] && (a.SetRange? ==> a.offset + a.length <= length)
    ensures SlotAgrees(SlotAfter(slot, p, length, a), PlaceAfter(p, a), lengths)
    ensures Owner(PlaceAfter(p, a)) == if a.RunCallback? then None else Owner(p)
  {
  }

  /** The same buffers wait in the same slots. */
  ghost predicate SameOwners(a: seq<Place>, b: seq<Place>) {
    |a| == |b| && forall k :: 0 <= k < |a| ==> Owner(a[k]) == Owner(b[k])
  }

  lemma AccountedStays(s: Handoff, after: Handoff)
    requires Accounted(s) && SameOwners(s.places, after.places) && after.claimed == s.claimed
    requires after.released == s.released
    ensures Accounted(after)
  {
    forall b | b in after.claimed && b !in after.released
      ensures exists k :: 0 <= k < |after.places| && Owner(after.places[k]) == Some(b)
    {
      var k :| 0 <= k < |s.places| && Owner(s.places[k]) == Some(b);
      assert Owner(after.places[k]) == Some(b);
    }
  }

  /** A step that leaves every slot's buffer where it is. */
  lemma QuietKeeps(s: Handoff, i: nat, slot: Slot, place: Place, after: Handoff)
    requires Inv(s) && i < |s.slots| && SlotAgrees(slot, place, s.lengths)
    requires Owner(place) == Owner(s.places[i]) && !place.Dropped?
    requires after == s.(slots := s.slots[i := slot], places := s.places[i := place])
    ensures Inv(after)
  {
    assert SameOwners(s.places, after.places);
    AccountedStays(s, after);
  }

  lemma {:induction false} CallbackKeeps(s: Handoff, i: nat)
    requires Inv(s) && i < |s.slots| && s.places[i].TakenOut?
    ensures Inv(Apply(s, RunCallback(i)))
  {
    var after, b := Apply(s, RunCallback(i)), s.places[i].b;
    assert Owner(s.places[i]) == Some(b);
    assert SlotAgrees(s.slots[i], s.places[i], s.lengths);
    assert forall k :: 0 <= k < |s.places| && k != i ==>
             after.places[k] == s.places[k] && Owner(s.places[k]) != Some(b);
    CallbackAccounts(s, i, after);
  }

  lemma CallbackAccounts(s: Handoff, i: nat, after: Handoff)
    requires Accounted(s) && i < |s.places| && s.places[i].TakenOut? && after.claimed == s.claimed
    requires after.places == s.places[i := Dropped(s.places[i].b)] && after.released == s.released + [s.places[i].b]
    ensures Accounted(after)
  {
    forall c | c in after.claimed && c !in after.released
      ensures exists k :: 0 <= k < |after.places| && Owner(after.places[k]) == Some(c)
    {
      var k :| 0 <= k < |s.places| && Owner(s.places[k]) == Some(c);
      assert Owner(after.places[k]) == Some(c);
    }
  }

  lemma SlotStepKeeps(s: Handoff, a: Action)
    requires Inv(s) && Enabled(s, a) && OnSlot(a)
    ensures Inv(Apply(s, a))
  {
    var p := s.places[a.i];
    assert SlotAgrees(s.slots[a.i], p, s.lengths);
    assert !p.Dropped? ==> Owner(p) == Some(p.b);
    SlotKeeps(s.slots[a.i], p, s.lengths, LengthOf(s, p), a);
    if a.RunCallback? {
      CallbackKeeps(s, a.i);
    } else {
      QuietKeeps(s, a.i, SlotAfter(s.slots[a.i], p, LengthOf(s, p), a), PlaceAfter(p, a), Apply(s, a));
    }
  }

  lemma ClaimKeeps(s: Handoff, b: nat, i: nat)
    requires Inv(s) && b in s.hands && i < |s.slots| && s.slots[i].state == Free
    ensures Inv(s.(hands := s.hands - {b}, claimed := s.claimed + {b},
                   slots := s.slots[i := s.slots[i].(state := Radio)], places := s.places[i := Claiming(b)]))
  {
    var after := s.(hands := s.hands - {b}, claimed := s.claimed + {b},
                    slots := s.slots[i := s.slots[i].(state := Radio)], places := s.places[i := Claiming(b)]);
    assert SlotAgrees(s.slots[i], s.places[i], s.lengths) && s.places[i].Vacant?;
    assert forall k :: 0 <= k < |s.places| && k != i ==>
             after.places[k] == s.places[k] && Owner(s.places[k]) != Some(b);
    assert Owner(after.places[i]) == Some(b);
    forall c | c in after.claimed && c !in after.released
      ensures exists k :: 0 <= k < |after.places| && Owner(after.places[k]) == Some(c)
    {
      if c != b {
        var k :| 0 <= k < |s.places| && Owner(s.places[k]) == Some(c);
        assert Owner(after.places[k]) == Some(c);
      }
    }
  }

  lemma HandsKeep(s: Handoff, hands: map<nat, Scan>, lengths: map<nat, nat>)
    requires Inv(s)
    requires forall b :: b in hands ==> b in s.hands || (b !in s.lengths && b in lengths)
    requires forall b :: b in s.lengths ==> b in lengths && lengths[b] == s.lengths[b]
    ensures Inv(s.(hands := hands, lengths := lengths))
  {
    var after := s.(hands := hands, lengths := lengths);
    forall i | 0 <= i < |s.slots| ensures SlotAgrees(after.slots[i], after.places[i], lengths) {
      assert SlotAgrees(s.slots[i], s.places[i], s.lengths);
    }
  }

  lemma DropKeeps(s: Handoff, b: nat)
    requires Inv(s) && b in s.hands
    ensures Inv(s.(hands := s.hands - {b}, released := s.released + [b]))
  {
  }

  lemma StepKeeps(s: Handoff, a: Action)
    requires Inv(s) && Enabled(s, a)
    ensures Inv(Apply(s, a))
  {
    match a
    case Detach(b, length, start) => HandsKeep(s, s.hands[b := Scan(start, 0)], s.lengths[b := length]);
    case TryClaim(b) =>
      var scan := s.hands[b];
      var i := Candidate(s, scan);
      if s.slots[i].state == Free {
        ClaimKeeps(s, b, i);
      } else {
        HandsKeep(s, s.hands[b := Scan(scan.start, scan.tried + 1)], s.lengths);
      }
    case Retry(b, start) => HandsKeep(s, s.hands[b := Scan(start, 0)], s.lengths);
    case DropHand(b) => DropKeeps(s, b);
    case _ => SlotStepKeeps(s, a);
  }

  // ------------------------------------------------------ runs

  ghost predicate IsRun(trace: seq<Handoff>, actions: seq<Action>) {
    |trace| == |actions| + 1 &&
    forall k :: 0 <= k < |actions| ==>
      && Enabled(trace[k], actions[k])
      && (|trace[k].slots| == |trace[k].places| ==> trace[k + 1] == Apply(trace[k], actions[k]))
  }

  lemma {:induction false} RunKeeps(trace: seq<Handoff>, actions: seq<Action>, n: nat, k: nat)
    requires IsRun(trace, actions) && trace[0] == Initial(n) && k < |trace|
    ensures Inv(trace[k]) && |trace[k].slots| == n
  {
    if k == 0 {
      InitialHolds(n);
    } else {
      RunKeeps(trace, actions, n, k - 1);
      StepKeeps(trace[k - 1], actions[k - 1]);
    }
  }

  /** No callback runs twice, and a free slot's last buffer has been released. */
  lemma ReleasedOnce(trace: seq<Handoff>, actions: seq<Action>, n: nat, k: nat)
    requires IsRun(trace, actions) && trace[0] == Initial(n) && k < |trace|
    ensures NoRepeats(trace[k].released)
    ensures k < |actions| && actions[k].StoreFree? ==>
            actions[k].i < n && trace[k].places[actions[k].i].b in trace[k].released
  {
    RunKeeps(trace, actions, n, k);
  }

  /** The buffers taken by slots and not yet released never outnumber the slots. */
  lemma RetainedBounded(trace: seq<Handoff>, actions: seq<Action>, n: nat, k: nat)
    requires IsRun(trace, actions) && trace[0] == Initial(n) && k < |trace|
    ensures |Retained(trace[k])| <= n
  {
    RunKeeps(trace, actions, n, k);
    var s := trace[k];
    forall b | b in Retained(s) ensures b in Owners(s.places) {
      var i :| 0 <= i < |s.places| && Owner(s.places[i]) == Some(b);
      InOwners(s.places, i);
    }
    OwnersBound(s.places);
    SubsetSize(Retained(s), Owners(s.places));
  }

  ghost function Retained(s: Handoff): set<nat> {
    set b | b in s.claimed && b !in s.released
  }

  ghost function Owners(places: seq<Place>): set<nat> {
    if places == [] then {}
    else (if Owner(places[0]).Some? then {Owner(places[0]).value} else {}) + Owners(places[1..])
  }

  lemma {:induction false} InOwners(places: seq<Place>, i: nat)
    requires i < |places| && Owner(places[i]).Some?
    ensures Owner(places[i]).value in Owners(places)
  {
    if i > 0 {
      InOwners(places[1..], i - 1);
    }
  }

  lemma {:induction false} OwnersBound(places: seq<Place>)
    ensures |Owners(places)| <= |places|
  {
    if places != [] {
      OwnersBound(places[1..]);
    }
  }

  // ------------------------------------------------------ what a holder sees

  /** Places reached through a range given for the slot. */
  predicate Ranged(p: Place) {
    p.RadioRanged? || p.Published? || p.NetworkHeld? || p.NetworkRanged?
  }

  /** Until a range is given for `i` again, the slot stays with `b`. */
  ghost predicate Untouched(trace: seq<Handoff>, actions: seq<Action>, i: nat, b: nat, j: nat, k: nat)
    requires |trace| == |actions| + 1 && k < |trace|
  {
    forall m :: j < m < k ==> !RangeGiven(actions[m], i) && OwnedBy(trace[m], i, b)
  }

  ghost predicate OwnedBy(s: Handoff, i: nat, b: nat) {
    i < |s.places| && Owner(s.places[i]) == Some(b)
  }

  predicate RangeGiven(a: Action, i: nat) {
    a.SetRange? && a.i == i
  }

  /** Whoever holds a published frame, and the network after it claimed one, sees exactly the range last
      given for the slot, and it was given for the same buffer. */
  lemma {:induction false} ViewIsLastRange(trace: seq<Handoff>, actions: seq<Action>, n: nat, k: nat, i: nat)
    returns (j: nat)
    requires IsRun(trace, actions) && trace[0] == Initial(n) && k < |trace| && i < n
    requires i < |trace[k].places| && i < |trace[k].slots| && Ranged(trace[k].places[i])
    ensures j < k && actions[j] == SetRange(i, trace[k].slots[i].offset, trace[k].slots[i].length)
    ensures Untouched(trace, actions, i, trace[k].places[i].b, j, k) && OwnedBy(trace[j], i, trace[k].places[i].b)
  {
    RangeStepOfRun(trace, actions, n, k, i);
    if RangeGiven(actions[k - 1], i) {
      j := k - 1;
    } else {
      j := ViewIsLastRange(trace, actions, n, k - 1, i);
    }
  }

  lemma RangeStepOfRun(trace: seq<Handoff>, actions: seq<Action>, n: nat, k: nat, i: nat)
    requires IsRun(trace, actions) && trace[0] == Initial(n) && k < |trace| && i < n
    requires i < |trace[k].places| && i < |trace[k].slots| && Ranged(trace[k].places[i])
    ensures k > 0 && i < |trace[k - 1].places| && i < |trace[k - 1].slots|
    ensures RangeStepped(trace[k - 1], actions[k - 1], trace[k], i)
  {
    RunKeeps(trace, actions, n, k - 1);
    RangeStep(trace[k - 1], actions[k - 1], i);
  }

  ghost predicate RangeStepped(s: Handoff, a: Action, after: Handoff, i: nat)
    requires i < |s.places| && i < |s.slots| && i < |after.places| && i < |after.slots| && Ranged(after.places[i])
  {
    && OwnedBy(s, i, after.places[i].b)
    && if RangeGiven(a, i) then a == SetRange(i, after.slots[i].offset, after.slots[i].length)
       else Ranged(s.places[i]) && s.slots[i].offset == after.slots[i].offset
            && s.slots[i].length == after.slots[i].length
  }

  lemma {:induction false} RangeStep(s: Handoff, a: Action, i: nat)
    requires Inv(s) && Enabled(s, a) && i < |s.slots| && Ranged(Apply(s, a).places[i])
    ensures RangeStepped(s, a, Apply(s, a), i)
  {
  }

  /** A slot's state says who holds it. */
  lemma HolderByState(s: Handoff, i: nat)
    requires Inv(s) && i < |s.slots|
    ensures var p := s.places[i];
            match s.slots[i].state
            case Free => p.Vacant?
            case Radio => p.Claiming? || p.RadioHeld? || p.RadioRanged?
            case Ready => p.Published?
            case Network => p.NetworkHeld? || p.NetworkRanged?
            case Releasing => p.Leaving? || p.TakenOut? || p.Dropped?
  {
    assert SlotAgrees(s.slots[i], s.places[i], s.lengths);
  }

  // ------------------------------------------------------ the scan

  /** A scan tries every slot exactly once. */
  lemma ScanReaches(start: nat, n: nat, i: nat) returns (d: nat)
    requires i < n
    ensures d < n && Try(start, n, d) == i
    ensures forall e: nat :: e < n && Try(start, n, e) == i ==> e == d
  {
    var r := Rem(start, n);
    d := if r <= i then i - r else i + n - r;
    RemPlus(start, d, n);
    forall e: nat | e < n && Try(start, n, e) == i ensures e == d {
      if e < d {
        RemDistinct(start + e, start + d, n);
      } else if d < e {
        RemDistinct(start + d, start + e, n);
      }
    }
  }

  /** At step `j` of a run `b` tries the slot at distance `d` of a scan from `start` and finds it taken. */
  ghost predicate FoundTaken(trace: seq<Handoff>, actions: seq<Action>, n: nat, j: nat, b: nat, start: nat, d: nat)
    requires n > 0
  {
    && j < |actions| && j < |trace| && actions[j] == TryClaim(b)
    && b in trace[j].hands && trace[j].hands[b] == Scan(start, d)
    && |trace[j].slots| == n && trace[j].slots[Try(start, n, d)].state != Free
  }

  /** In every interleaving, each slot a scan has put behind it was tried by it and was taken then. */
  lemma {:induction false} EachTryFoundTaken(trace: seq<Handoff>, actions: seq<Action>, n: nat, k: nat, b: nat, d: nat)
    returns (j: nat)
    requires IsRun(trace, actions) && trace[0] == Initial(n) && k < |trace|
    requires b in trace[k].hands && d < trace[k].hands[b].tried
    ensures n > 0 && j < k && FoundTaken(trace, actions, n, j, b, trace[k].hands[b].start, d)
  {
    RunKeeps(trace, actions, n, k - 1);
    var a, s := actions[k - 1], trace[k - 1];
    assert trace[k - 1 + 1] == Apply(s, a);
    ScanMoves(s, a, b);
    if a == TryClaim(b) && d == s.hands[b].tried {
      j := k - 1;
    } else {
      j := EachTryFoundTaken(trace, actions, n, k - 1, b, d);
    }
  }

  /** A scan goes on only by a try that finds its slot taken. */
  lemma ScanMoves(s: Handoff, a: Action, b: nat)
    requires Inv(s) && Enabled(s, a) && b in Apply(s, a).hands
    ensures var scan := Apply(s, a).hands[b];
            scan.tried == 0 ||
            (b in s.hands && s.hands[b].start == scan.start &&
             if a == TryClaim(b)
             then |s.slots| > 0 && scan.tried == s.hands[b].tried + 1 && s.slots[Candidate(s, s.hands[b])].state != Free
             else scan.tried == s.hands[b].tried)
  {
  }

  /** A claim that failed gives back its own buffer, unclaimed and unreleased, after each slot was tried
      exactly once by it and found taken at that moment, whatever the others did in between. */
  lemma FailedClaimTriedEverySlot(trace: seq<Handoff>, actions: seq<Action>, n: nat, k: nat, b: nat, i: nat)
    returns (d: nat, j: nat)
    requires IsRun(trace, actions) && trace[0] == Initial(n) && k < |trace|
    requires b in trace[k].hands && trace[k].hands[b].tried == n && i < n
    ensures b !in trace[k].claimed && b !in trace[k].released
    ensures var start := trace[k].hands[b].start;
            d < n && Try(start, n, d) == i && (forall e: nat :: e < n && Try(start, n, e) == i ==> e == d) &&
            j < k && FoundTaken(trace, actions, n, j, b, start, d)
  {
    RunKeeps(trace, actions, n, k);
    d := ScanReaches(trace[k].hands[b].start, n, i);
    j := EachTryFoundTaken(trace, actions, n, k, b, d);
  }

  /** `try_claim_radio` of the pool with nobody else about: it takes the first free slot from `start`
      on, and gives the buffer back only when there is none. */
  method ClaimSlot(states: seq<SlotState>, start: nat) returns (claimed: Option<nat>)
    ensures |states| == 0 || |states| > 256 ==> claimed == None
    ensures 0 < |states| <= 256 && claimed == None ==> forall i :: 0 <= i < |states| ==> states[i] != Free
    ensures claimed.Some? ==> claimed.value < |states| <= 256 && states[claimed.value] == Free
    ensures claimed.Some? ==> exists d: nat :: d < |states| && Try(start, |states|, d) == claimed.value
                                               && forall e: nat :: e < d ==> states[Try(start, |states|, e)] != Free
  {
    if |states| == 0 || |states| > 256 {
      return None;
    }
    for distance := 0 to |states|
      invariant forall e: nat :: e < distance ==> states[Try(start, |states|, e)] != Free
    {
      RemIsMod(start + distance, |states|);
      var index := (start + distance) % |states|;
      assert index == Try(start, |states|, distance);
      if states[index] == Free {
        return Some(index);
      }
    }
    forall i | 0 <= i < |states| ensures states[i] != Free {
      var d := ScanReaches(start, |states|, i);
    }
    return None;
  }
}
