/**
 Grant order of `stand/arbiter/src/queue.rs` and `balance.rs`: which waiting tickets are served before
 which, which can be granted now, and why every other one waits. Nothing here depends on what claims
 are, only on a symmetric `conflict` between them.
 */
module LeaseQueue {
  import opened Wrappers
  import Sets
  import Sorting

  datatype Priority = Ordinary | Maintenance

  datatype Ticket<C> = Ticket(id: nat, owner: string, estimate: nat, process: nat, claims: C, priority: Priority)

  datatype Holder<C> = Holder(ticket: Ticket<C>, token: string, granted: nat, preempted: Option<nat>)

  datatype Balance = Balance(ms: int, active: nat)

  datatype State<C> = State(nextId: nat, queue: seq<Ticket<C>>, holders: seq<Holder<C>>,
                            balances: map<string, Balance>, settled: nat)

  ghost predicate Symmetric<C(!new)>(conflict: (C, C) -> bool) {
    forall a, b :: conflict(a, b) == conflict(b, a)
  }

  ghost predicate DistinctIds<C>(tickets: seq<Ticket<C>>) {
    forall i, j :: 0 <= i < j < |tickets| ==> tickets[i].id != tickets[j].id
  }

  // ------------------------------------------------------ service order

  /** Owners start at zero. */
  function Of(balances: map<string, Balance>, owner: string): int {
    if owner in balances then balances[owner].ms else 0
  }

  predicate Before<C>(balances: map<string, Balance>, a: Ticket<C>, b: Ticket<C>) {
    match (a.priority, b.priority)
    case (Maintenance, Ordinary) => true
    case (Ordinary, Maintenance) => false
    case (Maintenance, Maintenance) => a.id < b.id
    case (Ordinary, Ordinary) =>
      var own, other := Of(balances, a.owner), Of(balances, b.owner);
      own > other || (own == other && a.id < b.id)
  }

  /** What a missing owner has, and what one with a balance has. */
  function BalanceMs(balances: map<string, Balance>, owner: string): int {
    match if owner in balances then Some(balances[owner].ms) else None
    case Some(ms) => ms
    case None => 0
  }

  /** Maintenance before ordinary work, then the higher balance, then the earlier request. */
  lemma BeforeMeaning<C>(balances: map<string, Balance>, a: Ticket<C>, b: Ticket<C>)
    ensures a.priority == Maintenance && b.priority == Ordinary ==>
              Before(balances, a, b) && !Before(balances, b, a)
    ensures a.priority == b.priority == Maintenance ==> (Before(balances, a, b) <==> a.id < b.id)
    ensures a.priority == b.priority == Ordinary && BalanceMs(balances, a.owner) > BalanceMs(balances, b.owner) ==>
              Before(balances, a, b) && !Before(balances, b, a)
    ensures a.priority == b.priority == Ordinary && BalanceMs(balances, a.owner) == BalanceMs(balances, b.owner) ==>
              (Before(balances, a, b) <==> a.id < b.id)
  {
  }

  /** Service order is a strict total order on tickets with distinct ids. */
  lemma BeforeIsTotal<C>(balances: map<string, Balance>, a: Ticket<C>, b: Ticket<C>, c: Ticket<C>)
    ensures !Before(balances, a, a)
    ensures Before(balances, a, b) && Before(balances, b, c) ==> Before(balances, a, c)
    ensures a.id != b.id ==> (Before(balances, a, b) <==> !Before(balances, b, a))
  {
  }

  function ServedBefore<C>(balances: map<string, Balance>): (Ticket<C>, Ticket<C>) -> bool {
    (a, b) => Before(balances, a, b)
  }

  lemma SortServes<C(!new)>(balances: map<string, Balance>, tickets: seq<Ticket<C>>)
    requires DistinctIds(tickets)
    ensures var order := Sorting.Sort(ServedBefore(balances), tickets);
            Sorting.Ordered(ServedBefore(balances), order)
  {
    var less := ServedBefore<C>(balances);
    forall a, b, c | less(a, b) && less(b, c) ensures less(a, c) {
      BeforeIsTotal(balances, a, b, c);
    }
    forall i, j | 0 <= i < j < |tickets| ensures less(tickets[i], tickets[j]) || less(tickets[j], tickets[i]) {
      BeforeIsTotal(balances, tickets[i], tickets[j], tickets[i]);
    }
    Sorting.SortOrdered(less, tickets);
  }

  // ------------------------------------------------------ what can be granted

  predicate Blocks<C>(s: State<C>, conflict: (C, C) -> bool, other: Ticket<C>, t: Ticket<C>) {
    other.id != t.id && Before(s.balances, other, t) && conflict(other.claims, t.claims)
  }

  function Select<T>(xs: seq<T>, keep: T -> bool): seq<T> {
    if xs == [] then [] else (if keep(xs[0]) then [xs[0]] else []) + Select(xs[1..], keep)
  }

  lemma {:induction false} Selected<T>(xs: seq<T>, keep: T -> bool, x: T)
    ensures x in Select(xs, keep) <==> x in xs && keep(x)
  {
    if xs != [] {
      Selected(xs[1..], keep, x);
      assert x in xs <==> x == xs[0] || x in xs[1..];
    }
  }

  /** What `t` has to let pass, sorted as it will be served. */
  function Ahead<C>(s: State<C>, conflict: (C, C) -> bool, t: Ticket<C>): seq<Ticket<C>> {
    Sorting.Sort(ServedBefore(s.balances), Select(s.queue, other => Blocks(s, conflict, other, t)))
  }

  lemma InAhead<C>(s: State<C>, conflict: (C, C) -> bool, t: Ticket<C>, other: Ticket<C>)
    ensures other in Ahead(s, conflict, t) <==> other in s.queue && Blocks(s, conflict, other, t)
  {
    var keep := (other: Ticket<C>) => Blocks(s, conflict, other, t);
    Selected(s.queue, keep, other);
    Sorting.SameMembers(Ahead(s, conflict, t), Select(s.queue, keep));
  }

  ghost predicate Pairwise<T>(p: (T, T) -> bool, xs: seq<T>) {
    forall i, j :: 0 <= i < j < |xs| ==> p(xs[i], xs[j])
  }

  lemma {:induction false} SelectPairwise<T>(p: (T, T) -> bool, xs: seq<T>, keep: T -> bool)
    requires Pairwise(p, xs)
    ensures Pairwise(p, Select(xs, keep))
  {
    if xs != [] {
      var rest := Select(xs[1..], keep);
      SelectPairwise(p, xs[1..], keep);
      forall j | 0 <= j < |rest| ensures p(xs[0], rest[j]) {
        Selected(xs[1..], keep, rest[j]);
      }
    }
  }

  lemma SelectDistinct<C>(tickets: seq<Ticket<C>>, keep: Ticket<C> -> bool)
    requires DistinctIds(tickets)
    ensures DistinctIds(Select(tickets, keep)) && forall t :: t in Select(tickets, keep) ==> t in tickets
  {
    SelectPairwise((a: Ticket<C>, b: Ticket<C>) => a.id != b.id, tickets, keep);
    forall t | t in Select(tickets, keep) ensures t in tickets {
      Selected(tickets, keep, t);
    }
  }

  /** They come in service order. */
  lemma AheadInService<C(!new)>(s: State<C>, conflict: (C, C) -> bool, t: Ticket<C>, i: nat, j: nat)
    requires DistinctIds(s.queue) && i < j < |Ahead(s, conflict, t)|
    ensures Before(s.balances, Ahead(s, conflict, t)[i], Ahead(s, conflict, t)[j])
  {
    var keep := (other: Ticket<C>) => Blocks(s, conflict, other, t);
    SelectDistinct(s.queue, keep);
    SortServes(s.balances, Select(s.queue, keep));
    assert ServedBefore(s.balances)(Ahead(s, conflict, t)[i], Ahead(s, conflict, t)[j]);
  }

  /** Position of the ticket `id`, or the length. */
  function Position<C>(tickets: seq<Ticket<C>>, id: nat): (i: nat)
    ensures i <= |tickets| && (i < |tickets| ==> tickets[i].id == id)
    ensures forall k :: 0 <= k < i ==> tickets[k].id != id
  {
    if tickets == [] || tickets[0].id == id then 0 else Position(tickets[1..], id) + 1
  }

  predicate HeldUp<C>(s: State<C>, conflict: (C, C) -> bool, t: Ticket<C>) {
    exists k :: 0 <= k < |s.holders| && conflict(s.holders[k].ticket.claims, t.claims)
  }

  /** The ticket is queued and nothing held or ahead of it is in its way. */
  predicate Grantable<C>(s: State<C>, conflict: (C, C) -> bool, id: nat) {
    var i := Position(s.queue, id);
    i < |s.queue| && !HeldUp(s, conflict, s.queue[i]) && Ahead(s, conflict, s.queue[i]) == []
  }

  /** Neither a holder nor a ticket served earlier conflicts with `t`. */
  ghost predicate Clear<C>(s: State<C>, conflict: (C, C) -> bool, t: Ticket<C>) {
    !HeldUp(s, conflict, t) && forall other :: other in s.queue ==> !Blocks(s, conflict, other, t)
  }

  lemma SameTicket<C>(tickets: seq<Ticket<C>>, a: Ticket<C>, b: Ticket<C>)
    requires DistinctIds(tickets) && a in tickets && b in tickets && a.id == b.id
    ensures a == b
  {
  }

  lemma PositionOf<C>(tickets: seq<Ticket<C>>, t: Ticket<C>)
    requires DistinctIds(tickets) && t in tickets
    ensures var i := Position(tickets, t.id); i < |tickets| && tickets[i] == t
  {
    var k :| 0 <= k < |tickets| && tickets[k] == t;
    var i := Position(tickets, t.id);
    assert i <= k;
    SameTicket(tickets, tickets[i], t);
  }

  /** A waiting ticket can be granted exactly if nothing stands in its way. */
  lemma GrantableMeaning<C>(s: State<C>, conflict: (C, C) -> bool, t: Ticket<C>)
    requires DistinctIds(s.queue) && t in s.queue
    ensures Grantable(s, conflict, t.id) <==> Clear(s, conflict, t)
  {
    PositionOf(s.queue, t);
    NoneAhead(s, conflict, t);
  }

  lemma NoneAhead<C>(s: State<C>, conflict: (C, C) -> bool, t: Ticket<C>)
    ensures Ahead(s, conflict, t) == [] <==> forall other :: other in s.queue ==> !Blocks(s, conflict, other, t)
  {
    var ahead := Ahead(s, conflict, t);
    if ahead == [] {
      forall other | other in s.queue ensures !Blocks(s, conflict, other, t) {
        InAhead(s, conflict, t, other);
      }
    } else {
      InAhead(s, conflict, t, ahead[0]);
    }
  }

  /** Tickets that can be granted at the same time do not conflict. */
  lemma GrantableApart<C(!new)>(s: State<C>, conflict: (C, C) -> bool, a: Ticket<C>, b: Ticket<C>)
    requires Symmetric(conflict) && DistinctIds(s.queue) && a in s.queue && b in s.queue && a != b
    requires Grantable(s, conflict, a.id) && Grantable(s, conflict, b.id)
    ensures !conflict(a.claims, b.claims)
  {
    if a.id == b.id {
      SameTicket(s.queue, a, b);
    }
    GrantableMeaning(s, conflict, a);
    GrantableMeaning(s, conflict, b);
    BeforeIsTotal(s.balances, a, b, a);
    assert !Blocks(s, conflict, a, b) && !Blocks(s, conflict, b, a);
  }

  // ------------------------------------------------------ granting

  function Without<T>(xs: seq<T>, i: nat): (r: seq<T>)
    requires i < |xs|
    ensures forall x :: x in r ==> x in xs
    ensures |r| == |xs| - 1
    ensures forall k :: 0 <= k < |r| ==> r[k] == xs[if k < i then k else k + 1]
  {
    xs[..i] + xs[i + 1..]
  }

  lemma WithoutMembers<T>(xs: seq<T>, i: nat, x: T)
    requires i < |xs| && x in xs && x != xs[i]
    ensures x in Without(xs, i)
  {
    var k :| 0 <= k < |xs| && xs[k] == x;
    assert Without(xs, i)[if k < i then k else k - 1] == x;
  }

  /** The queued ticket at `i` becomes a holder. */
  function Grant<C>(s: State<C>, i: nat, token: string, now: nat): State<C>
    requires i < |s.queue|
  {
    s.(queue := Without(s.queue, i), holders := s.holders + [Holder(s.queue[i], token, now, None)])
  }

  lemma WithoutDistinct<C>(tickets: seq<Ticket<C>>, i: nat)
    requires DistinctIds(tickets) && i < |tickets|
    ensures DistinctIds(Without(tickets, i)) && tickets[i] !in Without(tickets, i)
  {
  }

  /** Granting one ticket leaves every other grantable one grantable. */
  lemma GrantKeepsGrantable<C(!new)>(s: State<C>, conflict: (C, C) -> bool, i: nat, token: string, now: nat,
                                     other: Ticket<C>)
    requires Symmetric(conflict) && DistinctIds(s.queue) && i < |s.queue|
    requires other in s.queue && other != s.queue[i]
    requires Grantable(s, conflict, s.queue[i].id) && Grantable(s, conflict, other.id)
    ensures Grantable(Grant(s, i, token, now), conflict, other.id)
  {
    var after := Grant(s, i, token, now);
    WithoutDistinct(s.queue, i);
    WithoutMembers(s.queue, i, other);
    GrantableApart(s, conflict, s.queue[i], other);
    GrantableMeaning(s, conflict, other);
    StillClear(s, conflict, i, token, now, other);
    GrantableMeaning(after, conflict, other);
  }

  lemma StillClear<C>(s: State<C>, conflict: (C, C) -> bool, i: nat, token: string, now: nat, other: Ticket<C>)
    requires i < |s.queue| && Clear(s, conflict, other) && !conflict(s.queue[i].claims, other.claims)
    ensures Clear(Grant(s, i, token, now), conflict, other)
  {
    var after := Grant(s, i, token, now);
    assert forall u :: u in after.queue ==> Blocks(after, conflict, u, other) == Blocks(s, conflict, u, other);
  }

  // ------------------------------------------------------ why a ticket waits

  /** Every ticket of `path` waits because of the next. */
  ghost predicate Chain<C>(s: State<C>, conflict: (C, C) -> bool, path: seq<Ticket<C>>) {
    && path != []
    && (forall k :: 0 <= k < |path| ==> path[k] in s.queue)
    && (forall k :: 0 <= k < |path| - 1 ==> Blocks(s, conflict, path[k + 1], path[k]))
  }

  ghost function Earlier<C>(s: State<C>, t: Ticket<C>): set<Ticket<C>> {
    set u | u in s.queue && Before(s.balances, u, t)
  }

  lemma EarlierSmaller<C>(s: State<C>, u: Ticket<C>, t: Ticket<C>)
    requires u in s.queue && Before(s.balances, u, t)
    ensures |Earlier(s, u)| < |Earlier(s, t)|
  {
    forall v | v in Earlier(s, u) ensures v in Earlier(s, t) {
      BeforeIsTotal(s.balances, v, u, t);
    }
    BeforeIsTotal(s.balances, u, u, u);
    assert u in Earlier(s, t) && u !in Earlier(s, u);
    Sets.StrictSubsetSize(Earlier(s, u), Earlier(s, t));
  }

  /** Every waiting ticket leads through the tickets it waits for to one that a holder keeps waiting or
      that can be granted now: no ticket waits in a circle. */
  lemma {:induction false} WaitsForSomeone<C(!new)>(s: State<C>, conflict: (C, C) -> bool, t: Ticket<C>)
    returns (path: seq<Ticket<C>>)
    requires DistinctIds(s.queue) && t in s.queue
    ensures Chain(s, conflict, path) && path[0] == t
    ensures var last := path[|path| - 1];
            HeldUp(s, conflict, last) || Grantable(s, conflict, last.id)
    decreases |Earlier(s, t)|
  {
    GrantableMeaning(s, conflict, t);
    if HeldUp(s, conflict, t) || Clear(s, conflict, t) {
      path := [t];
    } else {
      var u :| u in s.queue && Blocks(s, conflict, u, t);
      EarlierSmaller(s, u, t);
      var rest := WaitsForSomeone(s, conflict, u);
      ChainGrows(s, conflict, t, rest);
      path := [t] + rest;
    }
  }

  lemma ChainGrows<C>(s: State<C>, conflict: (C, C) -> bool, t: Ticket<C>, rest: seq<Ticket<C>>)
    requires Chain(s, conflict, rest) && t in s.queue && Blocks(s, conflict, rest[0], t)
    ensures var path := [t] + rest;
            Chain(s, conflict, path) && path[0] == t && path[|path| - 1] == rest[|rest| - 1]
  {
    var path := [t] + rest;
    assert forall k :: 0 < k < |path| - 1 ==> path[k] == rest[k - 1] && path[k + 1] == rest[k];
  }

  /** With nothing held, some waiting ticket can be granted. */
  lemma FreeStandGrants<C(!new)>(s: State<C>, conflict: (C, C) -> bool)
    requires DistinctIds(s.queue) && s.queue != [] && s.holders == []
    ensures exists t :: t in s.queue && Grantable(s, conflict, t.id)
  {
    var path := WaitsForSomeone(s, conflict, s.queue[0]);
  }

  /** While a maintenance ticket waits, no ordinary ticket that conflicts with it can be granted,
      whatever the balances. */
  lemma MaintenanceFirst<C>(s: State<C>, conflict: (C, C) -> bool, maintenance: Ticket<C>, t: Ticket<C>)
    requires DistinctIds(s.queue) && maintenance in s.queue && t in s.queue
    requires maintenance.priority == Maintenance && t.priority == Ordinary
    requires conflict(maintenance.claims, t.claims)
    ensures !Grantable(s, conflict, t.id)
  {
    if maintenance.id == t.id {
      SameTicket(s.queue, maintenance, t);
    }
    GrantableMeaning(s, conflict, t);
    assert Blocks(s, conflict, maintenance, t);
  }

  lemma BlockedByEarlier<C>(s: State<C>, conflict: (C, C) -> bool, other: Ticket<C>, t: Ticket<C>)
    requires DistinctIds(s.queue) && other in s.queue && t in s.queue && other.id != t.id
    requires Before(s.balances, other, t) && conflict(other.claims, t.claims)
    ensures !Grantable(s, conflict, t.id)
  {
    GrantableMeaning(s, conflict, t);
    assert Blocks(s, conflict, other, t);
  }

  /** Of two conflicting ordinary tickets, the one whose owner has the lower balance has to wait. */
  lemma HigherBalanceFirst<C>(s: State<C>, conflict: (C, C) -> bool, higher: Ticket<C>, t: Ticket<C>)
    requires DistinctIds(s.queue) && higher in s.queue && t in s.queue && conflict(higher.claims, t.claims)
    requires higher.priority == t.priority == Ordinary
    requires BalanceMs(s.balances, higher.owner) > BalanceMs(s.balances, t.owner)
    ensures !Grantable(s, conflict, t.id)
  {
    if higher.id == t.id {
      SameTicket(s.queue, higher, t);
    }
    BeforeMeaning(s.balances, higher, t);
    BlockedByEarlier(s, conflict, higher, t);
  }

  /** On equal balances, and among maintenance tickets, the later of two conflicting ones has to wait. */
  lemma EarlierFirst<C>(s: State<C>, conflict: (C, C) -> bool, earlier: Ticket<C>, t: Ticket<C>)
    requires DistinctIds(s.queue) && earlier in s.queue && t in s.queue && conflict(earlier.claims, t.claims)
    requires earlier.id < t.id && earlier.priority == t.priority
    requires t.priority == Maintenance || BalanceMs(s.balances, earlier.owner) == BalanceMs(s.balances, t.owner)
    ensures !Grantable(s, conflict, t.id)
  {
    BeforeMeaning(s.balances, earlier, t);
    BlockedByEarlier(s, conflict, earlier, t);
  }

  /** Nothing else makes a ticket wait: no holder conflicts with it, and every ticket that does comes later
      by priority, balance or arrival. */
  lemma GrantedOtherwise<C>(s: State<C>, conflict: (C, C) -> bool, t: Ticket<C>)
    requires DistinctIds(s.queue) && t in s.queue
    requires forall h :: h in s.holders ==> !conflict(h.ticket.claims, t.claims)
    requires forall u :: u in s.queue && u != t && conflict(u.claims, t.claims) ==>
               || (u.priority == Ordinary && t.priority == Maintenance)
               || (u.priority == t.priority == Maintenance && t.id < u.id)
               || (u.priority == t.priority == Ordinary &&
                   (BalanceMs(s.balances, u.owner) < BalanceMs(s.balances, t.owner) ||
                    (BalanceMs(s.balances, u.owner) == BalanceMs(s.balances, t.owner) && t.id < u.id)))
    ensures Grantable(s, conflict, t.id)
  {
    GrantableMeaning(s, conflict, t);
    forall u | u in s.queue ensures !Blocks(s, conflict, u, t) {
      BeforeMeaning(s.balances, u, t);
      BeforeMeaning(s.balances, t, u);
    }
  }

  // ------------------------------------------------------ how many are ahead

  ghost predicate Picked<T>(xs: seq<T>, keep: T -> bool, kept: set<int>) {
    forall k :: k in kept <==> 0 <= k < |xs| && keep(xs[k])
  }

  lemma {:induction false} SelectCount<T>(xs: seq<T>, keep: T -> bool, kept: set<int>)
    requires Picked(xs, keep, kept)
    ensures |Select(xs, keep)| == |kept|
  {
    if xs == [] {
      assert forall k :: k in kept ==> 0 <= k < |xs|;
      assert kept == {};
    } else {
      var n := |xs| - 1;
      SelectFront(xs, keep);
      KeptFront(xs, keep, kept);
      SelectCount(xs[..n], keep, kept - {n});
    }
  }

  lemma KeptFront<T>(xs: seq<T>, keep: T -> bool, kept: set<int>)
    requires xs != [] && Picked(xs, keep, kept)
    ensures var n := |xs| - 1;
            Picked(xs[..n], keep, kept - {n}) && |kept| == |kept - {n}| + if keep(xs[n]) then 1 else 0
  {
    var n := |xs| - 1;
    assert n in kept <==> keep(xs[n]);
    assert n !in kept ==> kept - {n} == kept;
  }

  lemma {:induction false} SelectFront<T>(xs: seq<T>, keep: T -> bool)
    requires xs != []
    ensures var n := |xs| - 1;
            Select(xs, keep) == Select(xs[..n], keep) + if keep(xs[n]) then [xs[n]] else []
  {
    var n := |xs| - 1;
    if n > 0 {
      SelectFront(xs[1..], keep);
      assert xs[1..][..n - 1] == xs[..n][1..];
    }
  }

  /** As many tickets are ahead as queued tickets conflict and are served before. */
  lemma AheadCount<C>(s: State<C>, conflict: (C, C) -> bool, t: Ticket<C>, ahead: set<int>)
    requires forall k :: k in ahead <==>
               0 <= k < |s.queue| && s.queue[k].id != t.id && Before(s.balances, s.queue[k], t) &&
               conflict(s.queue[k].claims, t.claims)
    ensures |Ahead(s, conflict, t)| == |ahead|
  {
    var keep := (other: Ticket<C>) => Blocks(s, conflict, other, t);
    assert Picked(s.queue, keep, ahead);
    SelectCount(s.queue, keep, ahead);
    Sorting.SameLength(Ahead(s, conflict, t), Select(s.queue, keep));
  }
}
