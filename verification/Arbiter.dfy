/**
 Transactions of the arbiter (`stand/arbiter/src/grant.rs`, `store.rs`, `preempt.rs`): every one settles
 the balances, drops what dead processes left, then runs its action; an action that fails leaves the
 stored state as it was. Over every run no two holders conflict and ids stay unique.
 */
module Arbiter {
  import opened Wrappers
  import opened LeaseQueue
  import opened Settlement

  datatype Action<C> =
    | Enqueue(owner: string, estimate: nat, process: nat, claims: C, priority: Priority)
    | Poll(id: nat, token: string, unix: nat)
    | Cancel(id: nat)
    | Release(id: nat)
    | Preempt(id: nat, unixMs: nat)
    | Look

  /** One transaction: its time, the decay since the last, which processes live, and its action. */
  datatype Event<C> = Event(now: nat, decay: int -> int, alive: nat -> bool, action: Action<C>)

  function Initial<C>(): State<C> {
    State(1, [], [], map[], 0)
  }

  function Reap<C>(s: State<C>, alive: nat -> bool): State<C> {
    s.(queue := Select(s.queue, (t: Ticket<C>) => alive(t.process)),
       holders := Select(s.holders, (h: Holder<C>) => alive(h.ticket.process)))
  }

  /** Position of the holder of lease `id`, or the length. */
  function HolderPosition<C>(holders: seq<Holder<C>>, id: nat): (i: nat)
    ensures i <= |holders| && (i < |holders| ==> holders[i].ticket.id == id)
    ensures forall k :: 0 <= k < i ==> holders[k].ticket.id != id
  {
    if holders == [] || holders[0].ticket.id == id then 0 else HolderPosition(holders[1..], id) + 1
  }

  /** Only the first mark counts. */
  function MarkPreempted<C>(h: Holder<C>, unixMs: nat): Holder<C> {
    if h.preempted.Some? then h else h.(preempted := Some(unixMs))
  }

  /** The state after the action; `None` when it fails. */
  function Act<C>(s: State<C>, conflict: (C, C) -> bool, action: Action<C>): Option<State<C>> {
    match action
    case Enqueue(owner, estimate, process, claims, priority) =>
      Some(s.(nextId := s.nextId + 1,
              queue := s.queue + [Ticket(s.nextId, owner, estimate, process, claims, priority)]))
    case Poll(id, token, unix) =>
      var i := Position(s.queue, id);
      if i == |s.queue| then None
      else if Grantable(s, conflict, id) then Some(Grant(s, i, token, unix))
      else Some(s)
    case Cancel(id) => Some(s.(queue := Select(s.queue, (t: Ticket<C>) => t.id != id)))
    case Release(id) =>
      var i := HolderPosition(s.holders, id);
      if i == |s.holders| then Some(s) else Some(s.(holders := Without(s.holders, i)))
    case Preempt(id, unixMs) =>
      var i := HolderPosition(s.holders, id);
      if i == |s.holders| then None else Some(s.(holders := s.holders[i := MarkPreempted(s.holders[i], unixMs)]))
    case Look => Some(s)
  }

  ghost function Begun<C>(s: State<C>, conflict: (C, C) -> bool, e: Event<C>): State<C> {
    Reap(Settle(s, conflict, e.decay, e.now), e.alive)
  }

  ghost function Transaction<C>(s: State<C>, conflict: (C, C) -> bool, e: Event<C>): State<C> {
    var result := Act(Begun(s, conflict, e), conflict, e.action);
    if result.Some? then result.value else s
  }

  ghost function Run<C>(s: State<C>, conflict: (C, C) -> bool, events: seq<Event<C>>): State<C> {
    if events == [] then s
    else Transaction(Run(s, conflict, events[..|events| - 1]), conflict, events[|events| - 1])
  }

  // ------------------------------------------------------ safety

  ghost predicate HoldersApart<C>(holders: seq<Holder<C>>, conflict: (C, C) -> bool) {
    forall i, j :: 0 <= i < j < |holders| ==>
      holders[i].ticket.id != holders[j].ticket.id && !conflict(holders[i].ticket.claims, holders[j].ticket.claims)
  }

  ghost predicate IdsBelow<C>(s: State<C>, bound: nat) {
    && (forall t :: t in s.queue ==> t.id < bound)
    && (forall h :: h in s.holders ==> h.ticket.id < bound)
  }

  /** Ids are unique across queue and holders and below the next one, and no two holders conflict. */
  ghost predicate Safe<C>(s: State<C>, conflict: (C, C) -> bool) {
    && DistinctIds(s.queue)
    && HoldersApart(s.holders, conflict)
    && (forall t, h :: t in s.queue && h in s.holders ==> t.id != h.ticket.id)
    && IdsBelow(s, s.nextId)
  }

  lemma SelectApart<C>(holders: seq<Holder<C>>, conflict: (C, C) -> bool, keep: Holder<C> -> bool)
    requires HoldersApart(holders, conflict)
    ensures HoldersApart(Select(holders, keep), conflict) && forall h :: h in Select(holders, keep) ==> h in holders
  {
    var apart := (a: Holder<C>, b: Holder<C>) =>
      a.ticket.id != b.ticket.id && !conflict(a.ticket.claims, b.ticket.claims);
    SelectPairwise(apart, holders, keep);
    forall h | h in Select(holders, keep) ensures h in holders {
      Selected(holders, keep, h);
    }
  }

  lemma BegunSafe<C>(s: State<C>, conflict: (C, C) -> bool, e: Event<C>)
    requires Safe(s, conflict)
    ensures Safe(Begun(s, conflict, e), conflict)
  {
    SelectDistinct(s.queue, (t: Ticket<C>) => e.alive(t.process));
    SelectApart(s.holders, conflict, (h: Holder<C>) => e.alive(h.ticket.process));
  }

  lemma EnqueueSafe<C>(s: State<C>, conflict: (C, C) -> bool, t: Ticket<C>)
    requires Safe(s, conflict) && t.id == s.nextId
    ensures Safe(s.(nextId := s.nextId + 1, queue := s.queue + [t]), conflict)
  {
  }

  lemma GrantSafe<C>(s: State<C>, conflict: (C, C) -> bool, i: nat, token: string, unix: nat)
    requires Safe(s, conflict) && i < |s.queue| && Grantable(s, conflict, s.queue[i].id)
    ensures Safe(Grant(s, i, token, unix), conflict)
  {
    PositionOf(s.queue, s.queue[i]);
    WithoutDistinct(s.queue, i);
    var queue, h := Without(s.queue, i), Holder(s.queue[i], token, unix, None);
    assert forall t :: t in queue ==> t in s.queue && t.id != h.ticket.id;
    assert forall k :: 0 <= k < |s.holders| ==>
             s.holders[k] in s.holders && !conflict(s.holders[k].ticket.claims, h.ticket.claims);
    assert forall g :: g in s.holders + [h] ==> g in s.holders || g == h;
  }

  lemma ReleaseSafe<C>(s: State<C>, conflict: (C, C) -> bool, i: nat)
    requires Safe(s, conflict) && i < |s.holders|
    ensures Safe(s.(holders := Without(s.holders, i)), conflict)
  {
  }

  lemma PreemptSafe<C>(s: State<C>, conflict: (C, C) -> bool, i: nat, unixMs: nat)
    requires Safe(s, conflict) && i < |s.holders|
    ensures Safe(s.(holders := s.holders[i := MarkPreempted(s.holders[i], unixMs)]), conflict)
  {
    var holders := s.holders[i := MarkPreempted(s.holders[i], unixMs)];
    assert forall k :: 0 <= k < |holders| ==> holders[k].ticket == s.holders[k].ticket && s.holders[k] in s.holders;
  }

  lemma ActSafe<C>(s: State<C>, conflict: (C, C) -> bool, action: Action<C>)
    requires Safe(s, conflict)
    ensures var result := Act(s, conflict, action);
            result.Some? ==> Safe(result.value, conflict)
  {
    match action
    case Enqueue(owner, estimate, process, claims, priority) =>
      EnqueueSafe(s, conflict, Ticket(s.nextId, owner, estimate, process, claims, priority));
    case Poll(id, token, unix) =>
      if Grantable(s, conflict, id) {
        GrantSafe(s, conflict, Position(s.queue, id), token, unix);
      }
    case Cancel(id) =>
      SelectDistinct(s.queue, (t: Ticket<C>) => t.id != id);
    case Release(id) =>
      if HolderPosition(s.holders, id) < |s.holders| {
        ReleaseSafe(s, conflict, HolderPosition(s.holders, id));
      }
    case Preempt(id, unixMs) =>
      if HolderPosition(s.holders, id) < |s.holders| {
        PreemptSafe(s, conflict, HolderPosition(s.holders, id), unixMs);
      }
    case Look =>
  }

  lemma TransactionSafe<C>(s: State<C>, conflict: (C, C) -> bool, e: Event<C>)
    requires Safe(s, conflict)
    ensures Safe(Transaction(s, conflict, e), conflict)
  {
    BegunSafe(s, conflict, e);
    ActSafe(Begun(s, conflict, e), conflict, e.action);
  }

  /** Whatever processes ask, die or are preempted, in whatever order, every state is safe. */
  lemma {:induction false} RunSafe<C>(conflict: (C, C) -> bool, events: seq<Event<C>>)
    ensures Safe(Run(Initial(), conflict, events), conflict)
  {
    if events != [] {
      RunSafe(conflict, events[..|events| - 1]);
      TransactionSafe(Run(Initial(), conflict, events[..|events| - 1]), conflict, events[|events| - 1]);
    }
  }

  /** An id grows by at most one a transaction, so 64 bits hold it for 2^64 - 1 of them. */
  lemma {:induction false} NextIdBounded<C>(conflict: (C, C) -> bool, events: seq<Event<C>>)
    ensures Run(Initial(), conflict, events).nextId <= |events| + 1
  {
    if events != [] {
      var before, e := Run(Initial(), conflict, events[..|events| - 1]), events[|events| - 1];
      NextIdBounded(conflict, events[..|events| - 1]);
      ActNextId(Begun(before, conflict, e), conflict, e.action);
    }
  }

  lemma ActNextId<C>(s: State<C>, conflict: (C, C) -> bool, action: Action<C>)
    ensures var result := Act(s, conflict, action);
            result.Some? ==> s.nextId <= result.value.nextId <= s.nextId + 1
  {
  }

  lemma SettleWithin<C>(s: State<C>, conflict: (C, C) -> bool, decay: int -> int, now: nat)
    requires Within(s.balances, CAP)
    ensures Within(Settle(s, conflict, decay, now).balances, CAP)
  {
    if !Idle(s, now) {
      var after := Settle(s, conflict, decay, now).balances;
      forall o ensures o in after ==> Abs(after[o].ms) <= CAP {
        SettleMeaning(s, conflict, decay, now, o);
      }
    }
  }

  /** No balance ever leaves the cap. */
  lemma {:induction false} RunWithinCap<C>(conflict: (C, C) -> bool, events: seq<Event<C>>)
    ensures Within(Run(Initial(), conflict, events).balances, CAP)
  {
    if events != [] {
      var before, e := Run(Initial(), conflict, events[..|events| - 1]), events[|events| - 1];
      RunWithinCap(conflict, events[..|events| - 1]);
      SettleWithin(before, conflict, e.decay, e.now);
      ActKeepsBalances(Begun(before, conflict, e), conflict, e.action);
    }
  }

  lemma ActKeepsBalances<C>(s: State<C>, conflict: (C, C) -> bool, action: Action<C>)
    ensures var result := Act(s, conflict, action);
            result.Some? ==> result.value.balances == s.balances && result.value.settled == s.settled
  {
  }

  // ------------------------------------------------------ nobody loses its place

  lemma ReapKeeps<C>(s: State<C>, alive: nat -> bool)
    ensures forall t :: t in s.queue && alive(t.process) ==> t in Reap(s, alive).queue
    ensures forall h :: h in s.holders && alive(h.ticket.process) ==> h in Reap(s, alive).holders
  {
    forall t | t in s.queue && alive(t.process) ensures t in Reap(s, alive).queue {
      Selected(s.queue, (t: Ticket<C>) => alive(t.process), t);
    }
    forall h | h in s.holders && alive(h.ticket.process) ensures h in Reap(s, alive).holders {
      Selected(s.holders, (h: Holder<C>) => alive(h.ticket.process), h);
    }
  }

  /** The same lease, whose first preemption is kept. */
  ghost predicate SameLease<C>(h: Holder<C>, g: Holder<C>) {
    && g.ticket == h.ticket && g.token == h.token && g.granted == h.granted
    && (h.preempted.Some? ==> g.preempted == h.preempted)
  }

  ghost predicate Holds<C>(s: State<C>, h: Holder<C>) {
    exists g :: g in s.holders && SameLease(h, g)
  }

  lemma Kept<C>(s: State<C>, h: Holder<C>)
    requires h in s.holders
    ensures Holds(s, h)
  {
    assert SameLease(h, h);
  }

  lemma PreemptKeeps<C>(s: State<C>, i: nat, unixMs: nat, h: Holder<C>)
    requires i < |s.holders| && h in s.holders
    ensures Holds(s.(holders := s.holders[i := MarkPreempted(s.holders[i], unixMs)]), h)
  {
    var k :| 0 <= k < |s.holders| && s.holders[k] == h;
    var holders := s.holders[i := MarkPreempted(s.holders[i], unixMs)];
    assert SameLease(h, holders[k]);
  }

  lemma ActKeepsLease<C>(s: State<C>, conflict: (C, C) -> bool, action: Action<C>, h: Holder<C>)
    requires h in s.holders && action != Release(h.ticket.id)
    ensures var result := Act(s, conflict, action);
            result.Some? ==> Holds(result.value, h)
  {
    var result := Act(s, conflict, action);
    if action.Preempt? {
      var i := HolderPosition(s.holders, action.id);
      if i < |s.holders| {
        PreemptKeeps(s, i, action.unixMs, h);
      }
    } else if result.Some? {
      ActKeepsHolder(s, conflict, action, h);
      Kept(result.value, h);
    }
  }

  lemma ActKeepsHolder<C>(s: State<C>, conflict: (C, C) -> bool, action: Action<C>, h: Holder<C>)
    requires h in s.holders && action != Release(h.ticket.id) && !action.Preempt?
    ensures var result := Act(s, conflict, action);
            result.Some? ==> h in result.value.holders
  {
    if action.Release? {
      var i := HolderPosition(s.holders, action.id);
      if i < |s.holders| {
        WithoutMembers(s.holders, i, h);
      }
    }
  }

  /** A lease ends only when its own process releases it or dies: no grant, preemption or cancellation
      takes it away. */
  lemma LeaseStays<C>(s: State<C>, conflict: (C, C) -> bool, e: Event<C>, h: Holder<C>)
    requires h in s.holders && e.alive(h.ticket.process) && e.action != Release(h.ticket.id)
    ensures Holds(Transaction(s, conflict, e), h)
  {
    var settled := Settle(s, conflict, e.decay, e.now);
    ReapKeeps(settled, e.alive);
    assert h in Begun(s, conflict, e).holders;
    ActKeepsLease(Begun(s, conflict, e), conflict, e.action, h);
    Kept(s, h);
  }

  /** Where the request `t` is after an action that does not cancel it. */
  ghost predicate RequestIn<C>(s: State<C>, action: Action<C>, t: Ticket<C>) {
    t in s.queue || (action.Poll? && action.id == t.id && Holder(t, action.token, action.unix, None) in s.holders)
  }

  lemma PollKeepsRequest<C>(s: State<C>, conflict: (C, C) -> bool, id: nat, token: string, unix: nat, t: Ticket<C>)
    requires DistinctIds(s.queue) && t in s.queue && id < |s.queue|
    ensures RequestIn(Grant(s, id, token, unix), Poll(s.queue[id].id, token, unix), t)
  {
    if t != s.queue[id] {
      WithoutMembers(s.queue, id, t);
    }
  }

  lemma ActKeepsRequest<C>(s: State<C>, conflict: (C, C) -> bool, action: Action<C>, t: Ticket<C>)
    requires DistinctIds(s.queue) && t in s.queue && action != Cancel(t.id)
    ensures var result := Act(s, conflict, action);
            result.Some? ==> RequestIn(result.value, action, t)
  {
    if action.Poll? {
      var i := Position(s.queue, action.id);
      if i < |s.queue| {
        PollKeepsRequest(s, conflict, i, action.token, action.unix, t);
      }
    } else if action.Cancel? {
      Selected(s.queue, (u: Ticket<C>) => u.id != action.id, t);
    }
  }

  /** A request waits, as it was made, until it is granted, cancelled or its process dies. */
  lemma RequestStays<C>(s: State<C>, conflict: (C, C) -> bool, e: Event<C>, t: Ticket<C>)
    requires Safe(s, conflict) && t in s.queue && e.alive(t.process) && e.action != Cancel(t.id)
    ensures RequestIn(Transaction(s, conflict, e), e.action, t)
  {
    ReapKeeps(Settle(s, conflict, e.decay, e.now), e.alive);
    BegunSafe(s, conflict, e);
    ActKeepsRequest(Begun(s, conflict, e), conflict, e.action, t);
  }

  // ------------------------------------------------------ what a transaction achieves

  ghost predicate LivingWait<C(!new)>(s: State<C>, e: Event<C>, after: State<C>) {
    forall t :: t in after.queue <==> t in s.queue && e.alive(t.process)
  }

  ghost predicate LivingHold<C(!new)>(s: State<C>, e: Event<C>, after: State<C>) {
    forall h :: h in after.holders <==> h in s.holders && e.alive(h.ticket.process)
  }

  /** The balances are settled and no id is given away. */
  ghost predicate OnlySettled<C>(s: State<C>, conflict: (C, C) -> bool, e: Event<C>, after: State<C>) {
    var settled := Settle(s, conflict, e.decay, e.now);
    after.balances == settled.balances && after.settled == settled.settled && after.nextId == s.nextId
  }

  /** What dead processes left is gone, and all the rest is there. */
  lemma BegunMeaning<C(!new)>(s: State<C>, conflict: (C, C) -> bool, e: Event<C>)
    ensures var begun := Begun(s, conflict, e);
            LivingWait(s, e, begun) && LivingHold(s, e, begun) && OnlySettled(s, conflict, e, begun)
  {
    var begun := Begun(s, conflict, e);
    forall t ensures t in begun.queue <==> t in s.queue && e.alive(t.process) {
      Selected(s.queue, (t: Ticket<C>) => e.alive(t.process), t);
    }
    forall h ensures h in begun.holders <==> h in s.holders && e.alive(h.ticket.process) {
      Selected(s.holders, (h: Holder<C>) => e.alive(h.ticket.process), h);
    }
  }

  /** Looking changes nothing more. */
  lemma LookAchieves<C(!new)>(s: State<C>, conflict: (C, C) -> bool, e: Event<C>)
    requires e.action == Look
    ensures var after := Transaction(s, conflict, e);
            LivingWait(s, e, after) && LivingHold(s, e, after) && OnlySettled(s, conflict, e, after)
  {
    BegunMeaning(s, conflict, e);
  }

  /** A request joins the queue once, as it was made, under the next id. */
  lemma EnqueueAchieves<C(!new)>(s: State<C>, conflict: (C, C) -> bool, e: Event<C>)
    requires Safe(s, conflict) && e.action.Enqueue?
    ensures var after, a := Transaction(s, conflict, e), e.action;
            var made := Ticket(s.nextId, a.owner, a.estimate, a.process, a.claims, a.priority);
            made !in s.queue && LivingHold(s, e, after) &&
            (forall t :: t in after.queue <==> (t in s.queue && e.alive(t.process)) || t == made) &&
            OnlySettled(s, conflict, e, after.(nextId := s.nextId)) && after.nextId == s.nextId + 1
  {
    BegunMeaning(s, conflict, e);
  }

  /** After a release nobody holds the lease; every other one stays. */
  lemma ReleaseAchieves<C(!new)>(s: State<C>, conflict: (C, C) -> bool, e: Event<C>)
    requires Safe(s, conflict) && e.action.Release?
    ensures var after := Transaction(s, conflict, e);
            LivingWait(s, e, after) && OnlySettled(s, conflict, e, after) &&
            forall h :: h in after.holders <==>
              h in s.holders && e.alive(h.ticket.process) && h.ticket.id != e.action.id
  {
    BegunMeaning(s, conflict, e);
    BegunSafe(s, conflict, e);
    var begun, after := Begun(s, conflict, e), Transaction(s, conflict, e);
    forall h ensures h in after.holders <==> h in begun.holders && h.ticket.id != e.action.id {
      HolderGone(begun.holders, conflict, e.action.id, h);
    }
  }

  lemma HolderGone<C>(holders: seq<Holder<C>>, conflict: (C, C) -> bool, id: nat, h: Holder<C>)
    requires HoldersApart(holders, conflict)
    ensures var i := HolderPosition(holders, id);
            h in (if i == |holders| then holders else Without(holders, i)) <==> h in holders && h.ticket.id != id
  {
    var i := HolderPosition(holders, id);
    if i < |holders| && h in holders && h.ticket.id != id {
      WithoutMembers(holders, i, h);
    }
  }

  /** After a cancellation the request does not wait; every other one does. */
  lemma CancelAchieves<C(!new)>(s: State<C>, conflict: (C, C) -> bool, e: Event<C>)
    requires e.action.Cancel?
    ensures var after := Transaction(s, conflict, e);
            LivingHold(s, e, after) && OnlySettled(s, conflict, e, after) &&
            forall t :: t in after.queue <==> t in s.queue && e.alive(t.process) && t.id != e.action.id
  {
    BegunMeaning(s, conflict, e);
    var begun, after := Begun(s, conflict, e), Transaction(s, conflict, e);
    forall t ensures t in after.queue <==> t in begun.queue && t.id != e.action.id {
      Selected(begun.queue, (t: Ticket<C>) => t.id != e.action.id, t);
    }
  }

  /** A poll of a living request that can be granted, and of no other, moves it from the queue to the holders
      with its token and the time. */
  lemma {:induction false} PollAchieves<C(!new)>(s: State<C>, conflict: (C, C) -> bool, e: Event<C>, t: Ticket<C>)
    requires Safe(s, conflict) && e.action.Poll? && e.action.id == t.id && t in s.queue && e.alive(t.process)
    ensures var after, begun := Transaction(s, conflict, e), Begun(s, conflict, e);
            OnlySettled(s, conflict, e, after) &&
            if Grantable(begun, conflict, t.id) then
              (forall u :: u in after.queue <==> u in s.queue && e.alive(u.process) && u != t) &&
              (forall h :: h in after.holders <==>
                 (h in s.holders && e.alive(h.ticket.process)) || h == Holder(t, e.action.token, e.action.unix, None))
            else LivingWait(s, e, after) && LivingHold(s, e, after)
  {
    BegunMeaning(s, conflict, e);
    BegunSafe(s, conflict, e);
    var begun, after := Begun(s, conflict, e), Transaction(s, conflict, e);
    PositionOf(begun.queue, t);
    if Grantable(begun, conflict, t.id) {
      forall u ensures u in after.queue <==> u in begun.queue && u != t {
        TicketGone(begun.queue, t, u);
      }
    }
  }

  lemma TicketGone<C>(tickets: seq<Ticket<C>>, t: Ticket<C>, u: Ticket<C>)
    requires DistinctIds(tickets) && t in tickets
    ensures var i := Position(tickets, t.id);
            i < |tickets| && (u in Without(tickets, i) <==> u in tickets && u != t)
  {
    PositionOf(tickets, t);
    var i := Position(tickets, t.id);
    WithoutDistinct(tickets, i);
    if u in tickets && u != t {
      WithoutMembers(tickets, i, u);
    }
  }

  /** A poll of a request that no living process has waiting fails, and nothing is stored. */
  lemma PollFails<C(!new)>(s: State<C>, conflict: (C, C) -> bool, e: Event<C>)
    requires e.action.Poll? && forall t :: t in s.queue && t.id == e.action.id ==> !e.alive(t.process)
    ensures Transaction(s, conflict, e) == s
  {
    BegunMeaning(s, conflict, e);
    var begun := Begun(s, conflict, e);
    assert forall k :: 0 <= k < |begun.queue| ==> begun.queue[k] in begun.queue;
  }

  /** A preemption marks the lease with its time unless it is marked, and leaves every other one. */
  lemma {:induction false} PreemptAchieves<C(!new)>(s: State<C>, conflict: (C, C) -> bool, e: Event<C>, h: Holder<C>)
    requires Safe(s, conflict) && e.action.Preempt? && e.action.id == h.ticket.id
    requires h in s.holders && e.alive(h.ticket.process)
    ensures var after := Transaction(s, conflict, e);
            var time := match h.preempted case Some(first) => first case None => e.action.unixMs;
            LivingWait(s, e, after) && OnlySettled(s, conflict, e, after) &&
            forall g :: g in after.holders <==>
              (g in s.holders && e.alive(g.ticket.process) && g != h) ||
              g == Holder(h.ticket, h.token, h.granted, Some(time))
  {
    BegunMeaning(s, conflict, e);
    BegunSafe(s, conflict, e);
    var begun, after := Begun(s, conflict, e), Transaction(s, conflict, e);
    HoldersMarked(begun.holders, conflict, h, e.action.unixMs);
  }

  lemma HoldersMarked<C(!new)>(holders: seq<Holder<C>>, conflict: (C, C) -> bool, h: Holder<C>, unixMs: nat)
    requires HoldersApart(holders, conflict) && h in holders
    ensures var i := HolderPosition(holders, h.ticket.id);
            var time := match h.preempted case Some(first) => first case None => unixMs;
            i < |holders| && holders[i] == h &&
            forall g :: g in holders[i := MarkPreempted(h, unixMs)] <==>
              (g in holders && g != h) || g == Holder(h.ticket, h.token, h.granted, Some(time))
  {
    var i, marked := HolderPosition(holders, h.ticket.id), MarkPreempted(h, unixMs);
    HolderMarked(holders, conflict, h, unixMs, h);
    forall g ensures g in holders[i := marked] <==> (g in holders && g != h) || g == marked {
      HolderMarked(holders, conflict, h, unixMs, g);
    }
  }

  lemma HolderMarked<C>(holders: seq<Holder<C>>, conflict: (C, C) -> bool, h: Holder<C>, unixMs: nat, g: Holder<C>)
    requires HoldersApart(holders, conflict) && h in holders
    ensures var i, marked := HolderPosition(holders, h.ticket.id), MarkPreempted(h, unixMs);
            i < |holders| && holders[i] == h &&
            (g in holders[i := marked] <==> (g in holders && g != h) || g == marked)
  {
    var i, k :| i == HolderPosition(holders, h.ticket.id) && 0 <= k < |holders| && holders[k] == h;
    assert i == k;
    var after := holders[i := MarkPreempted(h, unixMs)];
    assert after[i] == MarkPreempted(h, unixMs);
    if g in holders && g != h {
      var j :| 0 <= j < |holders| && holders[j] == g;
      assert after[j] == g;
    }
  }

  /** A preemption of a lease that no living process holds fails, and nothing is stored. */
  lemma PreemptFails<C(!new)>(s: State<C>, conflict: (C, C) -> bool, e: Event<C>)
    requires e.action.Preempt?
    requires forall h :: h in s.holders && h.ticket.id == e.action.id ==> !e.alive(h.ticket.process)
    ensures Transaction(s, conflict, e) == s
  {
    BegunMeaning(s, conflict, e);
    var begun := Begun(s, conflict, e);
    assert forall k :: 0 <= k < |begun.holders| ==> begun.holders[k] in begun.holders;
  }

  ghost predicate Succeeds<C>(s: State<C>, e: Event<C>) {
    && (e.action.Poll? ==> exists t :: t in s.queue && t.id == e.action.id && e.alive(t.process))
    && (e.action.Preempt? ==> exists h :: h in s.holders && h.ticket.id == e.action.id && e.alive(h.ticket.process))
  }

  /** After a transaction that succeeds, nothing of a dead process is left: whoever holds is alive, and
      whoever waited before it. */
  lemma OnlyLivingLeft<C(!new)>(s: State<C>, conflict: (C, C) -> bool, e: Event<C>)
    requires Safe(s, conflict) && Succeeds(s, e)
    ensures var after := Transaction(s, conflict, e);
            (forall h :: h in after.holders ==> e.alive(h.ticket.process)) &&
            forall t :: t in after.queue && t in s.queue ==> e.alive(t.process)
  {
    match e.action
    case Enqueue(_, _, _, _, _) => EnqueueAchieves(s, conflict, e);
    case Poll(id, _, _) =>
      var t :| t in s.queue && t.id == id && e.alive(t.process);
      PollAchieves(s, conflict, e, t);
    case Cancel(_) => CancelAchieves(s, conflict, e);
    case Release(_) => ReleaseAchieves(s, conflict, e);
    case Preempt(id, _) =>
      var h :| h in s.holders && h.ticket.id == id && e.alive(h.ticket.process);
      PreemptAchieves(s, conflict, e, h);
    case Look => LookAchieves(s, conflict, e);
  }

  // ------------------------------------------------------ order of arrival

  ghost predicate ByArrival<C>(tickets: seq<Ticket<C>>) {
    Pairwise((a: Ticket<C>, b: Ticket<C>) => a.id < b.id, tickets)
  }

  lemma ActKeepsArrival<C>(s: State<C>, conflict: (C, C) -> bool, action: Action<C>)
    requires ByArrival(s.queue) && IdsBelow(s, s.nextId)
    ensures var result := Act(s, conflict, action);
            result.Some? ==> ByArrival(result.value.queue)
  {
    if action.Cancel? {
      SelectPairwise((a: Ticket<C>, b: Ticket<C>) => a.id < b.id, s.queue, (t: Ticket<C>) => t.id != action.id);
    }
  }

  /** The queue of every state of every run is in the order of its ids. */
  lemma {:induction false} RunByArrival<C>(conflict: (C, C) -> bool, events: seq<Event<C>>)
    ensures ByArrival(Run(Initial(), conflict, events).queue)
  {
    if events != [] {
      var before, e := Run(Initial(), conflict, events[..|events| - 1]), events[|events| - 1];
      RunByArrival(conflict, events[..|events| - 1]);
      RunSafe(conflict, events[..|events| - 1]);
      BegunSafe(before, conflict, e);
      SelectPairwise((a: Ticket<C>, b: Ticket<C>) => a.id < b.id, before.queue, (t: Ticket<C>) => e.alive(t.process));
      ActKeepsArrival(Begun(before, conflict, e), conflict, e.action);
    }
  }
}
