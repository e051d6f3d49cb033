/**
 `expected_starts` of `stand/arbiter/src/queue.rs`: the start it predicts for every waiting ticket is
 the pointwise least schedule that keeps service order, never runs two conflicting tickets at once and
 waits for the predicted end of every conflicting holder.
 */
module ExpectedStarts {
  import opened LeaseQueue
  import Sorting

  /** What is reported for a waiting ticket. */
  datatype Wait = Wait(id: nat, ahead: nat, start: nat)

  /** A waiting maintenance ticket preempts `h`. */
  predicate WillBePreempted<C>(s: State<C>, conflict: (C, C) -> bool, h: Holder<C>) {
    exists k :: 0 <= k < |s.queue| && s.queue[k].priority == Maintenance && conflict(s.queue[k].claims, h.ticket.claims)
  }

  /** Seconds from `now` until `h` is expected to end. */
  function PredictedEnd<C>(s: State<C>, conflict: (C, C) -> bool, now: nat, grace: nat, h: Holder<C>): nat {
    var until := h.granted + h.ticket.estimate;
    var end := if until < now then 0 else until - now;
    if WillBePreempted(s, conflict, h) && grace < end then grace else end
  }

  /** The latest predicted end of the first `n` holders that conflict with `t`. */
  function Remaining<C>(s: State<C>, conflict: (C, C) -> bool, now: nat, grace: nat, t: Ticket<C>, n: nat): nat
    requires n <= |s.holders|
  {
    if n == 0 then 0
    else
      var h := s.holders[n - 1];
      var rest := Remaining(s, conflict, now, grace, t, n - 1);
      var end := PredictedEnd(s, conflict, now, grace, h);
      if conflict(h.ticket.claims, t.claims) && rest < end then end else rest
  }

  /** The latest end of `ahead` by `starts`, at least `floor`. */
  function Latest<C>(ahead: seq<Ticket<C>>, starts: map<nat, nat>, floor: nat): (r: nat)
    requires forall k :: 0 <= k < |ahead| ==> ahead[k].id in starts
    ensures r >= floor && forall k :: 0 <= k < |ahead| ==> r >= starts[ahead[k].id] + ahead[k].estimate
    ensures r == floor || exists k :: 0 <= k < |ahead| && r == starts[ahead[k].id] + ahead[k].estimate
  {
    if ahead == [] then floor
    else
      var n := |ahead| - 1;
      var rest := Latest(ahead[..n], starts, floor);
      var end := starts[ahead[n].id] + ahead[n].estimate;
      if rest < end then end else rest
  }

  // ------------------------------------------------------ schedules

  /** `starts[k]`, for the ticket at `k` in the queue, is no earlier than what it waits for. */
  ghost predicate Feasible<C>(s: State<C>, conflict: (C, C) -> bool, now: nat, grace: nat, starts: seq<nat>) {
    && |starts| == |s.queue|
    && (forall k, h :: 0 <= k < |starts| && h in s.holders && conflict(h.ticket.claims, s.queue[k].claims) ==>
          starts[k] >= PredictedEnd(s, conflict, now, grace, h))
    && (forall j, k :: 0 <= j < |starts| && 0 <= k < |starts| && Blocks(s, conflict, s.queue[j], s.queue[k]) ==>
          starts[k] >= starts[j] + s.queue[j].estimate)
  }

  ghost predicate LeastSchedule<C>(s: State<C>, conflict: (C, C) -> bool, now: nat, grace: nat, starts: seq<nat>) {
    && Feasible(s, conflict, now, grace, starts)
    && forall other, k :: Feasible(s, conflict, now, grace, other) && 0 <= k < |starts| ==> starts[k] <= other[k]
  }

  /** In a feasible schedule two conflicting tickets never overlap, and the one served first goes first. */
  lemma NoOverlap<C(!new)>(s: State<C>, conflict: (C, C) -> bool, now: nat, grace: nat, starts: seq<nat>, j: nat,
                           k: nat)
    requires Symmetric(conflict) && DistinctIds(s.queue) && Feasible(s, conflict, now, grace, starts)
    requires j < |starts| && k < |starts| && j != k && conflict(s.queue[j].claims, s.queue[k].claims)
    ensures if Before(s.balances, s.queue[j], s.queue[k])
            then starts[j] + s.queue[j].estimate <= starts[k]
            else starts[k] + s.queue[k].estimate <= starts[j]
  {
    BeforeIsTotal(s.balances, s.queue[j], s.queue[k], s.queue[j]);
    assert Blocks(s, conflict, s.queue[j], s.queue[k]) || Blocks(s, conflict, s.queue[k], s.queue[j]);
  }

  /** Seconds until a lease granted at `granted` for `estimate` has run its time. */
  function Left(granted: nat, estimate: nat, now: nat): nat {
    if granted + estimate <= now then 0 else granted + estimate - now
  }

  ghost predicate MaintenanceWaits<C>(s: State<C>, conflict: (C, C) -> bool, h: Holder<C>) {
    exists w :: w in s.queue && w.priority == Maintenance && conflict(w.claims, h.ticket.claims)
  }

  /** A holder's time runs out by its estimate, or within the grace when a maintenance ticket waits that
      conflicts with it. */
  lemma PredictedEndMeaning<C>(s: State<C>, conflict: (C, C) -> bool, now: nat, grace: nat, h: Holder<C>)
    ensures var end, left := PredictedEnd(s, conflict, now, grace, h), Left(h.granted, h.ticket.estimate, now);
            if MaintenanceWaits(s, conflict, h) then end <= left && end <= grace && (end == left || end == grace)
            else end == left
  {
    PreemptedByMaintenance(s, conflict, h);
  }

  lemma PreemptedByMaintenance<C>(s: State<C>, conflict: (C, C) -> bool, h: Holder<C>)
    ensures WillBePreempted(s, conflict, h) <==> MaintenanceWaits(s, conflict, h)
  {
    if w :| w in s.queue && w.priority == Maintenance && conflict(w.claims, h.ticket.claims) {
      var k :| 0 <= k < |s.queue| && s.queue[k] == w;
      assert s.queue[k].priority == Maintenance && conflict(s.queue[k].claims, h.ticket.claims);
    }
    assert forall k :: 0 <= k < |s.queue| ==> s.queue[k] in s.queue;
  }

  lemma {:induction false} RemainingBounds<C>(s: State<C>, conflict: (C, C) -> bool, now: nat, grace: nat,
                                              t: Ticket<C>, n: nat)
    requires n <= |s.holders|
    ensures var r := Remaining(s, conflict, now, grace, t, n);
            (forall h :: h in s.holders[..n] && conflict(h.ticket.claims, t.claims) ==>
                r >= PredictedEnd(s, conflict, now, grace, h)) &&
            (r == 0 ||
             exists h :: h in s.holders[..n] && conflict(h.ticket.claims, t.claims) &&
               r == PredictedEnd(s, conflict, now, grace, h))
  {
    if n > 0 {
      RemainingBounds(s, conflict, now, grace, t, n - 1);
      var shorter, longer := s.holders[..n - 1], s.holders[..n];
      assert longer == shorter + [s.holders[n - 1]];
      assert forall h :: h in longer <==> h in shorter || h == s.holders[n - 1];
    }
  }

  /** Every start is the latest end of what is ahead, or of the conflicting holders. */
  ghost predicate Settled<C>(s: State<C>, conflict: (C, C) -> bool, now: nat, grace: nat, starts: map<nat, nat>,
                             tickets: seq<Ticket<C>>) {
    forall t :: t in tickets ==>
      && t.id in starts && Known(Ahead(s, conflict, t), starts)
      && starts[t.id] == Latest(Ahead(s, conflict, t), starts, Remaining(s, conflict, now, grace, t, |s.holders|))
  }

  ghost predicate Known<C>(tickets: seq<Ticket<C>>, starts: map<nat, nat>) {
    forall k :: 0 <= k < |tickets| ==> tickets[k].id in starts
  }

  lemma {:induction false} NoneEarlier<C(!new)>(s: State<C>, conflict: (C, C) -> bool, now: nat, grace: nat,
                                                starts: map<nat, nat>, other: seq<nat>, k: nat)
    requires Settled(s, conflict, now, grace, starts, s.queue) && Feasible(s, conflict, now, grace, other)
    requires k < |s.queue|
    ensures starts[s.queue[k].id] <= other[k]
    decreases |Earlier(s, s.queue[k])|
  {
    var t := s.queue[k];
    if starts[t.id] == Remaining(s, conflict, now, grace, t, |s.holders|) {
      FloorHolds(s, conflict, now, grace, other, k);
    } else {
      var j := Reason(s, conflict, now, grace, starts, t);
      EarlierSmaller(s, s.queue[j], t);
      NoneEarlier(s, conflict, now, grace, starts, other, j);
    }
  }

  /** A start later than every holder's end is the end of a ticket ahead. */
  lemma Reason<C>(s: State<C>, conflict: (C, C) -> bool, now: nat, grace: nat, starts: map<nat, nat>, t: Ticket<C>)
    returns (j: nat)
    requires Settled(s, conflict, now, grace, starts, s.queue) && t in s.queue
    requires starts[t.id] != Remaining(s, conflict, now, grace, t, |s.holders|)
    ensures j < |s.queue| && Blocks(s, conflict, s.queue[j], t)
    ensures s.queue[j].id in starts && starts[t.id] == starts[s.queue[j].id] + s.queue[j].estimate
  {
    var ahead := Ahead(s, conflict, t);
    var i :| 0 <= i < |ahead| && starts[t.id] == starts[ahead[i].id] + ahead[i].estimate;
    InAhead(s, conflict, t, ahead[i]);
    j :| 0 <= j < |s.queue| && s.queue[j] == ahead[i];
  }

  lemma FloorHolds<C>(s: State<C>, conflict: (C, C) -> bool, now: nat, grace: nat, other: seq<nat>, k: nat)
    requires Feasible(s, conflict, now, grace, other) && k < |s.queue|
    ensures Remaining(s, conflict, now, grace, s.queue[k], |s.holders|) <= other[k]
  {
    RemainingBounds(s, conflict, now, grace, s.queue[k], |s.holders|);
    assert s.holders[..|s.holders|] == s.holders;
  }

  lemma Waits<C>(s: State<C>, conflict: (C, C) -> bool, now: nat, grace: nat, starts: map<nat, nat>, t: Ticket<C>)
    requires Settled(s, conflict, now, grace, starts, [t])
    ensures forall h :: h in s.holders && conflict(h.ticket.claims, t.claims) ==>
              starts[t.id] >= PredictedEnd(s, conflict, now, grace, h)
    ensures forall u :: u in s.queue && Blocks(s, conflict, u, t) ==>
              u.id in starts && starts[t.id] >= starts[u.id] + u.estimate
  {
    assert t in [t];
    RemainingBounds(s, conflict, now, grace, t, |s.holders|);
    assert s.holders[..|s.holders|] == s.holders;
    var ahead := Ahead(s, conflict, t);
    forall u | u in s.queue && Blocks(s, conflict, u, t)
      ensures u.id in starts && starts[t.id] >= starts[u.id] + u.estimate
    {
      InAhead(s, conflict, t, u);
      var i :| 0 <= i < |ahead| && ahead[i] == u;
    }
  }

  lemma SettledIsLeast<C(!new)>(s: State<C>, conflict: (C, C) -> bool, now: nat, grace: nat, m: map<nat, nat>,
                                starts: seq<nat>)
    requires Settled(s, conflict, now, grace, m, s.queue)
    requires |starts| == |s.queue| && forall k :: 0 <= k < |starts| ==> starts[k] == m[s.queue[k].id]
    ensures LeastSchedule(s, conflict, now, grace, starts)
  {
    forall k | 0 <= k < |starts|
      ensures forall h :: h in s.holders && conflict(h.ticket.claims, s.queue[k].claims) ==>
                starts[k] >= PredictedEnd(s, conflict, now, grace, h)
      ensures forall j :: 0 <= j < |starts| && Blocks(s, conflict, s.queue[j], s.queue[k]) ==>
                starts[k] >= starts[j] + s.queue[j].estimate
    {
      Waits(s, conflict, now, grace, m, s.queue[k]);
    }
    forall other, k | Feasible(s, conflict, now, grace, other) && 0 <= k < |starts| ensures starts[k] <= other[k] {
      NoneEarlier(s, conflict, now, grace, m, other, k);
    }
  }

  // ------------------------------------------------------ how late a start can be

  /** The estimates of those of the first `n` waiting tickets that are served before `t`. */
  function WorkBefore<C>(s: State<C>, t: Ticket<C>, n: nat): nat
    requires n <= |s.queue|
  {
    if n == 0 then 0
    else WorkBefore(s, t, n - 1) + if Before(s.balances, s.queue[n - 1], t) then s.queue[n - 1].estimate else 0
  }

  /** The estimates of the first `n` waiting tickets. */
  function Total<C>(queue: seq<Ticket<C>>, n: nat): nat
    requires n <= |queue|
  {
    if n == 0 then 0 else Total(queue, n - 1) + queue[n - 1].estimate
  }

  lemma {:induction false} WorkBeforeGrows<C>(s: State<C>, j: nat, t: Ticket<C>, n: nat)
    requires j < |s.queue| && n <= |s.queue| && Before(s.balances, s.queue[j], t)
    ensures WorkBefore(s, s.queue[j], n) + (if j < n then s.queue[j].estimate else 0) <= WorkBefore(s, t, n)
  {
    if n > 0 {
      WorkBeforeGrows(s, j, t, n - 1);
      BeforeIsTotal(s.balances, s.queue[n - 1], s.queue[j], t);
    }
  }

  lemma {:induction false} WorkBeforeBound<C>(s: State<C>, k: nat, n: nat)
    requires k < |s.queue| && n <= |s.queue|
    ensures WorkBefore(s, s.queue[k], n) + (if k < n then s.queue[k].estimate else 0) <= Total(s.queue, n)
  {
    if n > 0 {
      WorkBeforeBound(s, k, n - 1);
      BeforeIsTotal(s.balances, s.queue[k], s.queue[k], s.queue[k]);
    }
  }

  /** One ticket after another, once every holder has ended. */
  ghost function OneByOne<C>(s: State<C>, floor: nat): (starts: seq<nat>)
    ensures |starts| == |s.queue|
    ensures forall k :: 0 <= k < |starts| ==> starts[k] == floor + WorkBefore(s, s.queue[k], |s.queue|)
  {
    seq(|s.queue|, k requires 0 <= k < |s.queue| => floor + WorkBefore(s, s.queue[k], |s.queue|))
  }

  /** No ticket is expected to end later than if all ran one by one after the last holder, so no sum in
      the schedule exceeds that bound. */
  lemma EndsBounded<C(!new)>(s: State<C>, conflict: (C, C) -> bool, now: nat, grace: nat, starts: seq<nat>,
                             floor: nat, k: nat)
    requires LeastSchedule(s, conflict, now, grace, starts) && k < |starts|
    requires forall h :: h in s.holders ==> PredictedEnd(s, conflict, now, grace, h) <= floor
    ensures starts[k] + s.queue[k].estimate <= floor + Total(s.queue, |s.queue|)
  {
    var other := OneByOne(s, floor);
    forall i, j | 0 <= i < |other| && 0 <= j < |other| && Blocks(s, conflict, s.queue[i], s.queue[j])
      ensures other[j] >= other[i] + s.queue[i].estimate
    {
      WorkBeforeGrows(s, i, s.queue[j], |s.queue|);
    }
    assert Feasible(s, conflict, now, grace, other);
    WorkBeforeBound(s, k, |s.queue|);
  }

  // ------------------------------------------------------ the loop

  lemma {:induction false} LatestSame<C>(ahead: seq<Ticket<C>>, starts: map<nat, nat>, more: map<nat, nat>, floor: nat)
    requires Known(ahead, starts) && forall id :: id in starts ==> id in more && more[id] == starts[id]
    ensures Known(ahead, more) && Latest(ahead, more, floor) == Latest(ahead, starts, floor)
  {
    if ahead != [] {
      LatestSame(ahead[..|ahead| - 1], starts, more, floor);
    }
  }

  /** In service order, everything ahead of a ticket comes before it. */
  lemma AheadKnown<C(!new)>(s: State<C>, conflict: (C, C) -> bool, order: seq<Ticket<C>>, i: nat, starts: map<nat, nat>)
    requires InService(s, order) && i < |order|
    requires forall j :: 0 <= j < i ==> order[j].id in starts
    ensures Known(Ahead(s, conflict, order[i]), starts)
  {
    var ahead := Ahead(s, conflict, order[i]);
    forall k | 0 <= k < |ahead| ensures ahead[k].id in starts {
      InAhead(s, conflict, order[i], ahead[k]);
      var j :| 0 <= j < |order| && order[j] == ahead[k];
      NotBefore(s.balances, order, i, j);
    }
  }

  lemma NotBefore<C>(balances: map<string, Balance>, order: seq<Ticket<C>>, i: nat, j: nat)
    requires Sorting.Ordered(ServedBefore(balances), order) && i < |order| && j < |order|
    ensures i <= j ==> !Before(balances, order[j], order[i])
  {
    BeforeIsTotal(balances, order[i], order[j], order[i]);
    if i < j {
      assert ServedBefore(balances)(order[i], order[j]);
    }
  }

  /** The queue in service order. */
  ghost predicate InService<C>(s: State<C>, order: seq<Ticket<C>>) {
    && Sorting.Ordered(ServedBefore(s.balances), order)
    && DistinctIds(order)
    && (forall t :: t in s.queue ==> t in order) && (forall t :: t in order ==> t in s.queue)
  }

  lemma SortedInService<C>(s: State<C>, order: seq<Ticket<C>>)
    requires DistinctIds(s.queue) && multiset(order) == multiset(s.queue)
    requires Sorting.Ordered(ServedBefore(s.balances), order)
    ensures InService(s, order)
  {
    Sorting.SameMembers(order, s.queue);
    OrderedDistinct(s, order);
  }

  lemma OrderedDistinct<C>(s: State<C>, order: seq<Ticket<C>>)
    requires Sorting.Ordered(ServedBefore(s.balances), order)
    requires DistinctIds(s.queue) && forall t :: t in order ==> t in s.queue
    ensures DistinctIds(order)
  {
    forall j, i | 0 <= j < i < |order| ensures order[j].id != order[i].id {
      assert ServedBefore(s.balances)(order[j], order[i]);
      BeforeIsTotal(s.balances, order[i], order[i], order[i]);
      if order[j].id == order[i].id {
        SameTicket(s.queue, order[j], order[i]);
      }
    }
  }

  lemma Prefix<T>(xs: seq<T>, i: nat)
    requires i < |xs|
    ensures xs[..i + 1] == xs[..i] + [xs[i]]
  {
  }

  lemma SettledGrows<C>(s: State<C>, conflict: (C, C) -> bool, now: nat, grace: nat, starts: map<nat, nat>,
                        tickets: seq<Ticket<C>>, t: Ticket<C>)
    requires Settled(s, conflict, now, grace, starts, tickets)
    requires t.id !in starts && Known(Ahead(s, conflict, t), starts)
    ensures var start := Latest(Ahead(s, conflict, t), starts, Remaining(s, conflict, now, grace, t, |s.holders|));
            Settled(s, conflict, now, grace, starts[t.id := start], tickets + [t])
  {
    var floor := Remaining(s, conflict, now, grace, t, |s.holders|);
    var more := starts[t.id := Latest(Ahead(s, conflict, t), starts, floor)];
    forall u | u in tickets + [t]
      ensures u.id in more && Known(Ahead(s, conflict, u), more)
      ensures more[u.id] == Latest(Ahead(s, conflict, u), more, Remaining(s, conflict, now, grace, u, |s.holders|))
    {
      assert u in tickets || u == t;
      LatestSame(Ahead(s, conflict, u), starts, more, Remaining(s, conflict, now, grace, u, |s.holders|));
    }
  }

  /** The starts of a report. */
  function Starts(report: seq<Wait>): (starts: seq<nat>)
    ensures |starts| == |report| && forall k :: 0 <= k < |report| ==> starts[k] == report[k].start
  {
    if report == [] then [] else [report[0].start] + Starts(report[1..])
  }

  /** `starts` is looked up without a default: every ticket ahead already has its start. */
  method FillStarts<C(!new)>(s: State<C>, conflict: (C, C) -> bool, now: nat, grace: nat)
    returns (starts: map<nat, nat>)
    requires DistinctIds(s.queue)
    ensures Settled(s, conflict, now, grace, starts, s.queue)
  {
    var order := Sorting.Sort(ServedBefore(s.balances), s.queue);
    SortServes(s.balances, s.queue);
    SortedInService(s, order);
    starts := map[];
    for i := 0 to |order|
      invariant Settled(s, conflict, now, grace, starts, order[..i])
      invariant forall j :: 0 <= j < i ==> order[j].id in starts
      invariant forall id :: id in starts ==> exists j :: 0 <= j < i && order[j].id == id
    {
      var t := order[i];
      AheadKnown(s, conflict, order, i, starts);
      var start := Latest(Ahead(s, conflict, t), starts, Remaining(s, conflict, now, grace, t, |s.holders|));
      SettledGrows(s, conflict, now, grace, starts, order[..i], t);
      Prefix(order, i);
      starts := starts[t.id := start];
    }
    assert order[..|order|] == order;
  }

  function Entry<C>(s: State<C>, conflict: (C, C) -> bool, starts: map<nat, nat>, t: Ticket<C>): Wait {
    Wait(t.id, |Ahead(s, conflict, t)|, if t.id in starts then starts[t.id] else 0)
  }

  function Map<T, U>(xs: seq<T>, f: T -> U): (ys: seq<U>)
    ensures |ys| == |xs| && forall k :: 0 <= k < |xs| ==> ys[k] == f(xs[k])
  {
    if xs == [] then [] else [f(xs[0])] + Map(xs[1..], f)
  }

  method ExpectedStarts<C(!new)>(s: State<C>, conflict: (C, C) -> bool, now: nat, grace: nat)
    returns (report: seq<Wait>)
    requires DistinctIds(s.queue)
    ensures |report| == |s.queue|
    ensures forall k :: 0 <= k < |report| ==>
              report[k].id == s.queue[k].id && report[k].ahead == |Ahead(s, conflict, s.queue[k])|
    ensures LeastSchedule(s, conflict, now, grace, Starts(report))
  {
    var starts := FillStarts(s, conflict, now, grace);
    report := Map(s.queue, t => Entry(s, conflict, starts, t));
    SettledIsLeast(s, conflict, now, grace, starts, Starts(report));
  }
}
