/**
 Owner balances of `stand/arbiter/src/balance.rs`: `settle` decays every balance, credits each owner
 that waits on another once, charges each lease that was not preempted once, takes away the average of
 those seen within a day and clamps. The decay is a parameter.
 */
module Settlement {
  import opened LeaseQueue

  type Balances = map<string, Balance>

  const CAP: int := 3_600_000
  const WINDOW: nat := 86_400_000

  // ------------------------------------------------------ who waits on another owner

  predicate WaitsOnOther<C>(s: State<C>, conflict: (C, C) -> bool, t: Ticket<C>) {
    || (exists k :: 0 <= k < |s.holders| && s.holders[k].ticket.owner != t.owner
                    && conflict(s.holders[k].ticket.claims, t.claims))
    || (exists k :: 0 <= k < |s.queue| && s.queue[k].owner != t.owner && Before(s.balances, s.queue[k], t)
                    && conflict(s.queue[k].claims, t.claims) && !Grantable(s, conflict, s.queue[k].id))
  }

  /** Whoever has a ticket kept waiting by somebody else. */
  function Waiting<C>(s: State<C>, conflict: (C, C) -> bool): set<string> {
    set k | 0 <= k < |s.queue| && WaitsOnOther(s, conflict, s.queue[k]) :: s.queue[k].owner
  }

  // ------------------------------------------------------ the steps of a settlement

  function Base(m: Balances, o: string): int {
    if o in m then m[o].ms else 0
  }

  function Each(m: Balances, f: int -> int): (r: Balances) {
    map o | o in m :: m[o].(ms := f(m[o].ms))
  }

  /** `amount` entered for `o`, which is active now. */
  function Entered(m: Balances, o: string, amount: int, now: nat): Balances {
    m[o := Balance(Base(m, o) + amount, now)]
  }

  function Credited(m: Balances, owners: set<string>, elapsed: nat, now: nat): Balances {
    map o | o in m.Keys + owners :: if o in owners then Balance(Base(m, o) + elapsed, now) else m[o]
  }

  /** The unpreempted leases among `holders` charge their owners. */
  function Charged<C>(m: Balances, holders: seq<Holder<C>>, elapsed: nat, now: nat): Balances {
    if holders == [] then m
    else
      var rest, h := Charged(m, holders[..|holders| - 1], elapsed, now), holders[|holders| - 1];
      if h.preempted.Some? then rest
      else Entered(rest, h.ticket.owner, 0 - elapsed, now)
  }

  function Since(now: nat, then_: nat): nat {
    if now < then_ then 0 else now - then_
  }

  function Retained(m: Balances, now: nat): Balances {
    map o | o in m && Since(now, m[o].active) <= WINDOW :: m[o]
  }

  ghost function Sum(m: Balances): int {
    if m == map[] then 0
    else
      var o :| o in m;
      m[o].ms + Sum(m - {o})
  }

  /** Division of 64-bit integers, toward zero. */
  function Quotient(x: int, n: nat): int
    requires n > 0
  {
    if x >= 0 then x / n else -((-x) / n)
  }

  ghost function Mean(m: Balances): int {
    if |m| == 0 then 0 else Quotient(Sum(m), |m|)
  }

  ghost function Centered(m: Balances): Balances {
    Each(m, ms => ms - Mean(m))
  }

  function Abs(x: int): nat {
    if x < 0 then -x else x
  }

  function Clamp(ms: int): int {
    if ms < -CAP then -CAP else if ms > CAP then CAP else ms
  }

  /** The balances after decay, credit and charge, of the owners still active. */
  function Raw<C>(s: State<C>, conflict: (C, C) -> bool, decay: int -> int, now: nat): Balances {
    var elapsed := Since(now, s.settled);
    Charged(Credited(Each(s.balances, decay), Waiting(s, conflict), elapsed, now), s.holders, elapsed, now)
  }

  ghost function Advanced<C>(s: State<C>, conflict: (C, C) -> bool, decay: int -> int, now: nat): Balances {
    Each(Centered(Retained(Raw(s, conflict, decay, now), now)), Clamp)
  }

  predicate Idle<C>(s: State<C>, now: nat) {
    s.settled == 0 || Since(now, s.settled) == 0
  }

  ghost function Settle<C>(s: State<C>, conflict: (C, C) -> bool, decay: int -> int, now: nat): State<C> {
    if Idle(s, now) then s.(settled := if s.settled < now then now else s.settled)
    else s.(balances := Advanced(s, conflict, decay, now), settled := now)
  }

  // ------------------------------------------------------ credit and charge

  /** How many leases of `o` are charged. */
  function Leases<C>(holders: seq<Holder<C>>, o: string): nat {
    if holders == [] then 0
    else
      var h := holders[|holders| - 1];
      Leases(holders[..|holders| - 1], o) + if h.preempted.None? && h.ticket.owner == o then 1 else 0
  }

  lemma {:induction false} ChargedAt<C>(m: Balances, holders: seq<Holder<C>>, elapsed: nat, now: nat, o: string)
    ensures var r := Charged(m, holders, elapsed, now);
            (o in r <==> o in m || Leases(holders, o) > 0) &&
            Base(r, o) == Base(m, o) - elapsed * Leases(holders, o) &&
            (o in r ==> r[o].active == if Leases(holders, o) > 0 then now else m[o].active)
  {
    if holders != [] {
      ChargedAt(m, holders[..|holders| - 1], elapsed, now, o);
      Times(elapsed, Leases(holders[..|holders| - 1], o));
    }
  }

  lemma Times(x: nat, n: nat)
    ensures x * (n + 1) == x * n + x
  {
  }

  /** Every owner is credited once if any of its requests waits on another owner, and charged once for
      each of its leases that was not preempted; the owners that appear are marked active. */
  lemma RawMeaning<C>(s: State<C>, conflict: (C, C) -> bool, decay: int -> int, now: nat, o: string)
    ensures var r, elapsed := Raw(s, conflict, decay, now), Since(now, s.settled);
            var credit, leases := o in Waiting(s, conflict), Leases(s.holders, o);
            (o in r <==> o in s.balances || credit || leases > 0) &&
            Base(r, o) == (if o in s.balances then decay(s.balances[o].ms) else 0) +
              (if credit then elapsed else 0) - elapsed * leases &&
            (o in r ==> r[o].active == if credit || leases > 0 then now else s.balances[o].active)
  {
    var elapsed := Since(now, s.settled);
    ChargedAt(Credited(Each(s.balances, decay), Waiting(s, conflict), elapsed, now), s.holders, elapsed, now, o);
  }

  /** What is left of the balance of `o`. */
  function Decayed(m: Balances, decay: int -> int, o: string): int {
    if o in m then decay(m[o].ms) else 0
  }

  lemma InWaiting<C>(s: State<C>, conflict: (C, C) -> bool, t: Ticket<C>)
    requires t in s.queue && WaitsOnOther(s, conflict, t)
    ensures t.owner in Waiting(s, conflict)
  {
    var k :| 0 <= k < |s.queue| && s.queue[k] == t;
    assert s.queue[k].owner == t.owner;
  }

  lemma BehindRequest<C>(s: State<C>, conflict: (C, C) -> bool, t: Ticket<C>, k: nat)
    requires k < |s.queue| && s.queue[k].owner != t.owner && Before(s.balances, s.queue[k], t)
    requires conflict(s.queue[k].claims, t.claims) && !Grantable(s, conflict, s.queue[k].id)
    ensures WaitsOnOther(s, conflict, t)
  {
  }

  lemma {:induction false} CreditWaiting<C>(s: State<C>, conflict: (C, C) -> bool, decay: int -> int, now: nat,
                                            o: string)
    requires 0 < s.settled < now && o in Waiting(s, conflict)
    ensures var r, elapsed := Raw(s, conflict, decay, now), now - s.settled;
            o in r && r[o].active == now &&
            r[o].ms == Decayed(s.balances, decay, o) + elapsed - elapsed * Leases(s.holders, o)
  {
    RawMeaning(s, conflict, decay, now, o);
    var r, elapsed := Raw(s, conflict, decay, now), now - s.settled;
    assert Since(now, s.settled) == elapsed;
    assert Base(r, o) == r[o].ms;
  }

  lemma CreditNone<C>(s: State<C>, conflict: (C, C) -> bool, decay: int -> int, now: nat, o: string)
    requires 0 < s.settled < now && o !in Waiting(s, conflict)
    ensures var r, leases := Raw(s, conflict, decay, now), Leases(s.holders, o);
            (o in r <==> o in s.balances || leases > 0) &&
            (o in r ==>
               r[o].ms == Decayed(s.balances, decay, o) - (now - s.settled) * leases &&
               r[o].active == if leases > 0 then now else s.balances[o].active)
  {
    RawMeaning(s, conflict, decay, now, o);
  }

  lemma NotWaiting<C>(s: State<C>, conflict: (C, C) -> bool, t: Ticket<C>)
    requires forall h :: h in s.holders && conflict(h.ticket.claims, t.claims) ==> h.ticket.owner == t.owner
    requires forall u :: u in s.queue && conflict(u.claims, t.claims) ==>
               u.owner == t.owner || !Before(s.balances, u, t) || Grantable(s, conflict, u.id)
    ensures !WaitsOnOther(s, conflict, t)
  {
    assert forall i :: 0 <= i < |s.holders| ==> s.holders[i] in s.holders;
    assert forall i :: 0 <= i < |s.queue| ==> s.queue[i] in s.queue;
  }

  /** An owner with a request kept waiting by another owner's lease is credited the time since the last
      settlement, once, beside what its own leases cost. */
  lemma CreditBehindLease<C>(s: State<C>, conflict: (C, C) -> bool, decay: int -> int, now: nat, t: Ticket<C>,
                             h: Holder<C>)
    requires 0 < s.settled < now && t in s.queue && h in s.holders
    requires h.ticket.owner != t.owner && conflict(h.ticket.claims, t.claims)
    ensures var r, elapsed := Raw(s, conflict, decay, now), now - s.settled;
            t.owner in r && r[t.owner].active == now &&
            r[t.owner].ms == Decayed(s.balances, decay, t.owner) + elapsed - elapsed * Leases(s.holders, t.owner)
  {
    var k :| 0 <= k < |s.holders| && s.holders[k] == h;
    InWaiting(s, conflict, t);
    CreditWaiting(s, conflict, decay, now, t.owner);
  }

  /** So is an owner with a request behind one of another owner that cannot be granted itself. */
  lemma CreditBehindRequest<C>(s: State<C>, conflict: (C, C) -> bool, decay: int -> int, now: nat, t: Ticket<C>,
                               u: Ticket<C>)
    requires 0 < s.settled < now && t in s.queue && u in s.queue
    requires u.owner != t.owner && Before(s.balances, u, t) && conflict(u.claims, t.claims)
    requires !Grantable(s, conflict, u.id)
    ensures var r, elapsed := Raw(s, conflict, decay, now), now - s.settled;
            t.owner in r && r[t.owner].active == now &&
            r[t.owner].ms == Decayed(s.balances, decay, t.owner) + elapsed - elapsed * Leases(s.holders, t.owner)
  {
    var k :| 0 <= k < |s.queue| && s.queue[k] == u;
    BehindRequest(s, conflict, t, k);
    InWaiting(s, conflict, t);
    CreditWaiting(s, conflict, decay, now, t.owner);
  }

  /** Nobody else earns anything: not whose requests wait for its own leases and requests, nor behind
      requests that can be granted. */
  lemma NoCreditOtherwise<C>(s: State<C>, conflict: (C, C) -> bool, decay: int -> int, now: nat, o: string)
    requires 0 < s.settled < now
    requires forall t, h :: t in s.queue && h in s.holders && t.owner == o && conflict(h.ticket.claims, t.claims) ==>
               h.ticket.owner == o
    requires forall t, u :: t in s.queue && u in s.queue && t.owner == o && conflict(u.claims, t.claims) ==>
               u.owner == o || !Before(s.balances, u, t) || Grantable(s, conflict, u.id)
    ensures var r, leases := Raw(s, conflict, decay, now), Leases(s.holders, o);
            (o in r <==> o in s.balances || leases > 0) &&
            (o in r ==>
               r[o].ms == Decayed(s.balances, decay, o) - (now - s.settled) * leases &&
               r[o].active == if leases > 0 then now else s.balances[o].active)
  {
    forall k | 0 <= k < |s.queue| && s.queue[k].owner == o ensures !WaitsOnOther(s, conflict, s.queue[k]) {
      NotWaiting(s, conflict, s.queue[k]);
    }
    CreditNone(s, conflict, decay, now, o);
  }

  /** The leases charged are those of the owner that were not preempted. */
  lemma {:induction false} LeasesCount<C>(holders: seq<Holder<C>>, o: string, charged: set<int>)
    requires forall k :: k in charged <==> 0 <= k < |holders| && ChargedTo(holders[k], o)
    ensures Leases(holders, o) == |charged|
  {
    if holders == [] {
      assert forall k :: k in charged ==> 0 <= k < |holders|;
      assert charged == {};
    } else {
      var n := |holders| - 1;
      assert n in charged <==> ChargedTo(holders[n], o);
      assert n !in charged ==> charged - {n} == charged;
      LeasesCount(holders[..n], o, charged - {n});
    }
  }

  predicate ChargedTo<C>(h: Holder<C>, o: string) {
    h.ticket.owner == o && !h.preempted.Some?
  }

  // ------------------------------------------------------ the mean

  lemma KeysWithout(m: Balances, o: string)
    requires o in m
    ensures |m - {o}| == |m| - 1
  {
    assert (m - {o}).Keys == m.Keys - {o};
    assert |m.Keys| == |m| && |(m - {o}).Keys| == |m - {o}|;
  }

  lemma {:induction false} SumWithout(m: Balances, o: string)
    requires o in m
    ensures Sum(m) == m[o].ms + Sum(m - {o})
    decreases |m|
  {
    var p :| p in m && Sum(m) == m[p].ms + Sum(m - {p});
    if p != o {
      KeysWithout(m, p);
      KeysWithout(m, o);
      SumWithout(m - {p}, o);
      SumWithout(m - {o}, p);
      assert m - {p} - {o} == m - {o} - {p};
    }
  }

  lemma {:induction false} SumShifted(m: Balances, d: int)
    ensures Sum(Each(m, ms => ms - d)) == Sum(m) - |m| * d
    decreases |m|
  {
    var f := ms => ms - d;
    if m == map[] {
      assert Each(m, f) == map[];
    } else {
      var o :| o in m;
      KeysWithout(m, o);
      SumShifted(m - {o}, d);
      SumWithout(m, o);
      SumWithout(Each(m, f), o);
      assert Each(m, f) - {o} == Each(m - {o}, f);
      OneLess(|m|, d);
    }
  }

  lemma OneLess(n: nat, d: int)
    requires n > 0
    ensures n * d == (n - 1) * d + d
  {
  }

  lemma QuotientNear(x: int, n: nat)
    requires n > 0
    ensures Abs(x - n * Quotient(x, n)) < n
  {
    var a: nat := if x >= 0 then x else -x;
    assert a == n * (a / n) + a % n;
    assert n * -(a / n) == -(n * (a / n));
  }

  /** The quotient is cut toward zero. */
  lemma QuotientTowardZero(x: int, n: nat)
    requires n > 0
    ensures x >= 0 ==> n * Quotient(x, n) <= x < n * Quotient(x, n) + n
    ensures x <= 0 ==> n * Quotient(x, n) - n < x <= n * Quotient(x, n)
  {
    Division(Abs(x), n);
    Negated(n, Abs(x) / n);
  }

  lemma Division(a: nat, n: nat)
    requires n > 0
    ensures n * (a / n) <= a < n * (a / n) + n
  {
    assert a == n * (a / n) + a % n;
  }

  lemma Negated(n: nat, q: int)
    ensures n * -q == -(n * q)
  {
  }

  /** Subtracting the mean leaves a sum that differs from zero by less than one millisecond an owner. */
  lemma CenteredSum(m: Balances)
    requires |m| > 0
    ensures Abs(Sum(Centered(m))) < |m|
  {
    SumShifted(m, Mean(m));
    QuotientNear(Sum(m), |m|);
    var mean := Mean(m);
    assert Each(m, ms => ms - Mean(m)) == Each(m, ms => ms - mean);
  }

  /** It changes no difference between two owners. */
  lemma CenteredDifference(m: Balances, o: string, p: string)
    requires o in m && p in m
    ensures Centered(m)[o].ms - Centered(m)[p].ms == m[o].ms - m[p].ms
  {
  }

  // ------------------------------------------------------ settlements

  /** A settlement forgets whoever was idle for over a day and brings the rest within the cap. */
  lemma SettleMeaning<C>(s: State<C>, conflict: (C, C) -> bool, decay: int -> int, now: nat, o: string)
    requires !Idle(s, now)
    ensures var after, raw := Settle(s, conflict, decay, now).balances, Raw(s, conflict, decay, now);
            (o in after <==> o in raw && Since(now, raw[o].active) <= WINDOW) &&
            (o in after ==> Abs(after[o].ms) <= CAP && after[o].active == raw[o].active)
  {
  }

  /** It keeps whoever was seen in the last 86,400 seconds, and takes the mean of their balances from each as
      far as the 3,600 seconds allow. */
  lemma SettledAt<C>(s: State<C>, conflict: (C, C) -> bool, decay: int -> int, now: nat, o: string)
    requires 0 < s.settled < now
    ensures var after, raw := Settle(s, conflict, decay, now), Raw(s, conflict, decay, now);
            var kept := map p | p in raw && now - raw[p].active <= 86_400_000 :: raw[p];
            after == s.(balances := after.balances, settled := now) &&
            after.balances.Keys == kept.Keys &&
            (o in kept ==>
               var exact := raw[o].ms - Mean(kept);
               after.balances[o].active == raw[o].active &&
               after.balances[o].ms ==
                 if exact > 3_600_000 then 3_600_000 else if exact < -3_600_000 then -3_600_000 else exact)
  {
    var raw := Raw(s, conflict, decay, now);
    assert Retained(raw, now) == map p | p in raw && now - raw[p].active <= 86_400_000 :: raw[p];
  }

  /** The first settlement, and one at an earlier time, leave the balances. */
  lemma NothingToSettle<C>(s: State<C>, conflict: (C, C) -> bool, decay: int -> int, now: nat)
    requires s.settled == 0 || now <= s.settled
    ensures Settle(s, conflict, decay, now) == s.(settled := if now <= s.settled then s.settled else now)
  {
  }

  /** It orders the owners it keeps as decay, credit and charge ordered them. */
  lemma SettleKeepsOrder<C>(s: State<C>, conflict: (C, C) -> bool, decay: int -> int, now: nat, o: string, p: string)
    requires !Idle(s, now)
    ensures var after, raw := Settle(s, conflict, decay, now).balances, Raw(s, conflict, decay, now);
            o in after && p in after && raw[o].ms <= raw[p].ms ==> after[o].ms <= after[p].ms
  {
    var kept := Retained(Raw(s, conflict, decay, now), now);
    if o in kept && p in kept && kept[o].ms <= kept[p].ms {
      CenteredOrder(kept, o, p);
    }
  }

  lemma CenteredOrder(kept: Balances, o: string, p: string)
    requires o in kept && p in kept && kept[o].ms <= kept[p].ms
    ensures Each(Centered(kept), Clamp)[o].ms <= Each(Centered(kept), Clamp)[p].ms
  {
  }

  /** Settling again at the same time or an earlier one changes nothing. */
  lemma SettleAgain<C>(s: State<C>, conflict: (C, C) -> bool, decay: int -> int, again: int -> int, now: nat,
                       earlier: nat)
    requires earlier <= now
    ensures var after := Settle(s, conflict, decay, now);
            Settle(after, conflict, again, earlier) == after
  {
  }

  ghost predicate Within(m: Balances, bound: int) {
    forall o :: o in m ==> Abs(m[o].ms) <= bound
  }

  ghost predicate Shrinks(decay: int -> int) {
    forall x :: Abs(decay(x)) <= Abs(x)
  }

  lemma {:induction false} LeasesBound<C>(holders: seq<Holder<C>>, o: string)
    ensures Leases(holders, o) <= |holders|
  {
    if holders != [] {
      LeasesBound(holders[..|holders| - 1], o);
    }
  }

  lemma TimesMonotone(x: nat, a: nat, b: nat)
    requires a <= b
    ensures x * a <= x * b
  {
  }

  /** A decay that does not grow magnitudes keeps the values summed for the mean small. */
  lemma RawBound<C>(s: State<C>, conflict: (C, C) -> bool, decay: int -> int, now: nat)
    requires Shrinks(decay) && Within(s.balances, CAP)
    ensures Within(Raw(s, conflict, decay, now), CAP + Since(now, s.settled) * (|s.holders| + 1))
  {
    var r, elapsed := Raw(s, conflict, decay, now), Since(now, s.settled);
    forall o | o in r ensures Abs(r[o].ms) <= CAP + elapsed * (|s.holders| + 1) {
      RawMeaning(s, conflict, decay, now, o);
      LeasesBound(s.holders, o);
      var base := if o in s.balances then decay(s.balances[o].ms) else 0;
      BoundOne(base, if o in Waiting(s, conflict) then elapsed else 0, elapsed, Leases(s.holders, o), |s.holders|);
    }
  }

  lemma BoundOne(base: int, credit: nat, elapsed: nat, leases: nat, n: nat)
    requires Abs(base) <= CAP && credit <= elapsed && leases <= n
    ensures Abs(base + credit - elapsed * leases) <= CAP + elapsed * (n + 1)
  {
    TimesMonotone(elapsed, leases, n);
    Times(elapsed, n);
  }

  lemma {:induction false} SumBound(m: Balances, bound: nat)
    requires Within(m, bound)
    ensures Abs(Sum(m)) <= |m| * bound
    decreases |m|
  {
    if m != map[] {
      var o :| o in m;
      KeysWithout(m, o);
      SumBound(m - {o}, bound);
      SumWithout(m, o);
      OneLess(|m|, bound);
    }
  }

  // ------------------------------------------------------ the loops

  method UpdateEach(m: Balances, f: int -> int) returns (r: Balances)
    ensures r == Each(m, f)
  {
    r := m;
    var todo := m.Keys;
    while todo != {}
      invariant todo <= m.Keys == r.Keys
      invariant forall o :: o in m ==> r[o] == if o in todo then m[o] else m[o].(ms := f(m[o].ms))
      decreases |todo|
    {
      var o :| o in todo;
      r := r[o := r[o].(ms := f(r[o].ms))];
      todo := todo - {o};
    }
  }

  ghost predicate CreditedSoFar(m: Balances, owners: set<string>, todo: set<string>, elapsed: nat, now: nat,
                                r: Balances) {
    && todo <= owners
    && r.Keys == m.Keys + (owners - todo)
    && forall o :: o in r ==> r[o] == if o in owners && o !in todo then Balance(Base(m, o) + elapsed, now) else m[o]
  }

  lemma CreditedMore(m: Balances, owners: set<string>, todo: set<string>, o: string, elapsed: nat, now: nat,
                     r: Balances)
    requires o in todo && CreditedSoFar(m, owners, todo, elapsed, now, r)
    ensures CreditedSoFar(m, owners, todo - {o}, elapsed, now, Entered(r, o, elapsed, now))
  {
  }

  lemma CreditedAll(m: Balances, owners: set<string>, elapsed: nat, now: nat, r: Balances)
    requires CreditedSoFar(m, owners, {}, elapsed, now, r)
    ensures r == Credited(m, owners, elapsed, now)
  {
  }

  method Credit(m: Balances, owners: set<string>, elapsed: nat, now: nat) returns (r: Balances)
    ensures r == Credited(m, owners, elapsed, now)
  {
    r := m;
    var todo := owners;
    while todo != {}
      invariant CreditedSoFar(m, owners, todo, elapsed, now, r)
      decreases |todo|
    {
      var o :| o in todo;
      CreditedMore(m, owners, todo, o, elapsed, now, r);
      r := Entered(r, o, elapsed, now);
      todo := todo - {o};
    }
    CreditedAll(m, owners, elapsed, now, r);
  }

  method Charge<C>(m: Balances, holders: seq<Holder<C>>, elapsed: nat, now: nat) returns (r: Balances)
    ensures r == Charged(m, holders, elapsed, now)
  {
    r := m;
    for k := 0 to |holders|
      invariant r == Charged(m, holders[..k], elapsed, now)
    {
      var h := holders[k];
      assert holders[..k + 1][..k] == holders[..k];
      if h.preempted.None? {
        r := Entered(r, h.ticket.owner, 0 - elapsed, now);
      }
    }
    assert holders[..|holders|] == holders;
  }

  method MeanOf(m: Balances) returns (mean: int)
    requires |m| > 0
    ensures mean == Mean(m)
  {
    var sum, rest := 0, m;
    while rest != map[]
      invariant sum + Sum(rest) == Sum(m)
      decreases |rest|
    {
      var o :| o in rest;
      SumWithout(rest, o);
      KeysWithout(rest, o);
      sum, rest := sum + rest[o].ms, rest - {o};
    }
    mean := Quotient(sum, |m|);
  }

  method Normalize(m: Balances, now: nat) returns (r: Balances)
    ensures r == Centered(Retained(m, now))
  {
    r := Retained(m, now);
    if |r| > 0 {
      var mean := MeanOf(r);
      assert Each(r, ms => ms - Mean(r)) == Each(r, ms => ms - mean);
      r := UpdateEach(r, ms => ms - mean);
    }
  }

  /** The new balances and the new time of settlement. */
  method SettleBalances<C>(s: State<C>, conflict: (C, C) -> bool, decay: int -> int, now: nat)
    returns (balances: Balances, settled: nat)
    ensures s.(balances := balances, settled := settled) == Settle(s, conflict, decay, now)
  {
    var elapsed := Since(now, s.settled);
    if s.settled == 0 || elapsed == 0 {
      return s.balances, if s.settled < now then now else s.settled;
    }
    balances := UpdateEach(s.balances, decay);
    balances := Credit(balances, Waiting(s, conflict), elapsed, now);
    balances := Charge(balances, s.holders, elapsed, now);
    balances := Normalize(balances, now);
    balances := UpdateEach(balances, Clamp);
    settled := now;
  }
}
