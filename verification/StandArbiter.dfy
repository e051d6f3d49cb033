/**
 The arbiter's stored state as its transactions rewrite it, proved against the transactions of module
 `Arbiter`, and what they promise for the stand's own claims.
 */
module StandArbiter {
  import opened Wrappers
  import opened LeaseQueue
  import opened Arbiter
  import Claims
  import Settlement
  import Spectrum
  import Expected = ExpectedStarts

  const SHUTDOWN_GRACE: nat := 300

  datatype Polled = Granted(balance: int) | Waiting(ahead: nat, start: nat)

  datatype Refusal = LeftQueue | NotHeld

  class Store<C(!new)> {
    const conflict: (C, C) -> bool
    var nextId: nat
    var queue: seq<Ticket<C>>
    var holders: seq<Holder<C>>
    var balances: map<string, Balance>
    var settled: nat

    function Value(): State<C>
      reads this
    {
      State(nextId, queue, holders, balances, settled)
    }

    constructor (conflict: (C, C) -> bool)
      ensures this.conflict == conflict && Value() == Initial()
    {
      this.conflict := conflict;
      nextId, queue, holders, balances, settled := 1, [], [], map[], 0;
    }

    /** What every transaction does first. */
    method Begin(now: nat, decay: int -> int, alive: nat -> bool)
      modifies this
      ensures Value() == Reap(Settlement.Settle(old(Value()), conflict, decay, now), alive)
    {
      balances, settled := Settlement.SettleBalances(Value(), conflict, decay, now);
      queue := Select(queue, (t: Ticket<C>) => alive(t.process));
      holders := Select(holders, (h: Holder<C>) => alive(h.ticket.process));
    }

    /** The stored state stays as it was when the action fails. */
    method Abandon(before: State<C>)
      modifies this
      ensures Value() == before
    {
      nextId, queue, holders, balances, settled :=
        before.nextId, before.queue, before.holders, before.balances, before.settled;
    }

    method Enqueue(now: nat, decay: int -> int, alive: nat -> bool,
                   owner: string, estimate: nat, process: nat, claims: C, priority: Priority) returns (id: nat)
      modifies this
      ensures var action := Action.Enqueue(owner, estimate, process, claims, priority);
              Value() == Transaction(old(Value()), conflict, Event(now, decay, alive, action))
      ensures id == old(nextId)
    {
      Begin(now, decay, alive);
      id := nextId;
      nextId := nextId + 1;
      queue := queue + [Ticket(id, owner, estimate, process, claims, priority)];
    }

    /** Grants the ticket if it can be granted; otherwise says how many are ahead and when it is expected
        to start. */
    method Poll(now: nat, decay: int -> int, alive: nat -> bool, id: nat, token: string, unix: nat)
      returns (r: Result<Polled, Refusal>)
      requires Safe(Value(), conflict)
      modifies this
      ensures Value() == Transaction(old(Value()), conflict, Event(now, decay, alive, Action.Poll(id, token, unix)))
      ensures var begun := Begun(old(Value()), conflict, Event(now, decay, alive, Action.Poll(id, token, unix)));
              var i := Position(begun.queue, id);
              match r
              case Err(_) => i == |begun.queue|
              case Ok(Granted(balance)) => Grantable(begun, conflict, id) &&
                balance == Of(begun.balances, begun.queue[i].owner)
              case Ok(Waiting(ahead, start)) =>
                i < |begun.queue| && !Grantable(begun, conflict, id) &&
                  ahead == |Ahead(begun, conflict, begun.queue[i])| &&
                exists starts :: Expected.LeastSchedule(begun, conflict, unix, SHUTDOWN_GRACE, starts) &&
                  starts[i] == start
    {
      var before := Value();
      BegunSafe(before, conflict, Event(now, decay, alive, Action.Poll(id, token, unix)));
      Begin(now, decay, alive);
      var i := Position(queue, id);
      if Grantable(Value(), conflict, id) {
        var ticket := queue[i];
        queue := Without(queue, i);
        holders := holders + [Holder(ticket, token, unix, None)];
        return Ok(Granted(Of(balances, ticket.owner)));
      }
      var report := Expected.ExpectedStarts(Value(), conflict, unix, SHUTDOWN_GRACE);
      if i == |queue| {
        Abandon(before);
        return Err(LeftQueue);
      }
      assert Expected.Starts(report)[i] == report[i].start;
      return Ok(Waiting(report[i].ahead, report[i].start));
    }

    method Cancel(now: nat, decay: int -> int, alive: nat -> bool, id: nat)
      modifies this
      ensures Value() == Transaction(old(Value()), conflict, Event(now, decay, alive, Action.Cancel(id)))
    {
      Begin(now, decay, alive);
      queue := Select(queue, (t: Ticket<C>) => t.id != id);
    }

    method Release(now: nat, decay: int -> int, alive: nat -> bool, id: nat)
      modifies this
      ensures Value() == Transaction(old(Value()), conflict, Event(now, decay, alive, Action.Release(id)))
    {
      Begin(now, decay, alive);
      var i := HolderPosition(holders, id);
      if i < |holders| {
        holders := Without(holders, i);
      }
    }

    method Preempt(now: nat, decay: int -> int, alive: nat -> bool, id: nat, unixMs: nat)
      returns (r: Result<Holder<C>, Refusal>)
      modifies this
      ensures Value() == Transaction(old(Value()), conflict, Event(now, decay, alive, Action.Preempt(id, unixMs)))
      ensures r.Ok? ==> r.value in holders && r.value.ticket.id == id && r.value.preempted.Some?
    {
      var before := Value();
      Begin(now, decay, alive);
      var i := HolderPosition(holders, id);
      if i == |holders| {
        Abandon(before);
        return Err(NotHeld);
      }
      holders := holders[i := MarkPreempted(holders[i], unixMs)];
      return Ok(holders[i]);
    }
  }

  // ------------------------------------------------------ the stand

  type Claimed = seq<Claims.Claim>

  lemma ConflictsAreSymmetric()
    ensures Symmetric(Claims.Conflict)
  {
    forall a: Claimed, b: Claimed ensures Claims.Conflict(a, b) == Claims.Conflict(b, a) {
      Claims.ConflictSymmetric(a, b);
    }
  }

  /** Over every run of the stand, two different holders have different ids and claims that can be held
      at once. */
  lemma HoldersNeverConflict(events: seq<Event<Claimed>>, i: nat, j: nat)
    requires i != j
    ensures var holders := Run(Initial(), Claims.Conflict, events).holders;
            i < |holders| && j < |holders| ==>
              holders[i].ticket.id != holders[j].ticket.id &&
                !Claims.Conflict(holders[i].ticket.claims, holders[j].ticket.claims)
  {
    RunSafe(Claims.Conflict, events);
    var holders := Run(Initial(), Claims.Conflict, events).holders;
    if i < |holders| && j < |holders| {
      ConflictsAreSymmetric();
      Apart(holders, Claims.Conflict, i, j);
    }
  }

  /** Over every run, a resource that is neither a range nor the air, a board for one, that a holder claims
      exclusively is claimed by no other holder. */
  lemma NothingHeldTwice(events: seq<Event<Claimed>>, i: nat, j: nat, resource: string)
    requires i != j && !(Spectrum.PREFIX <= resource) && resource != "air"
    ensures var holders := Run(Initial(), Claims.Conflict, events).holders;
            i < |holders| && j < |holders| && Claims.Claim(resource, Claims.Exclusive) in holders[i].ticket.claims ==>
              Claims.Claim(resource, Claims.Exclusive) !in holders[j].ticket.claims &&
              Claims.Claim(resource, Claims.Shared) !in holders[j].ticket.claims
  {
    HoldersNeverConflict(events, i, j);
    var holders := Run(Initial(), Claims.Conflict, events).holders;
    if i < |holders| && j < |holders| {
      var a, b := holders[i].ticket.claims, holders[j].ticket.claims;
      Claims.ConflictMeaning(a, b);
      assert !Claims.NameAlone(a, b, resource) by {
        assert Claims.Contended(a, b, resource);
      }
    }
  }

  lemma Apart<C(!new)>(holders: seq<Holder<C>>, conflict: (C, C) -> bool, i: nat, j: nat)
    requires HoldersApart(holders, conflict) && Symmetric(conflict) && i < |holders| && j < |holders| && i != j
    ensures holders[i].ticket.id != holders[j].ticket.id
    ensures !conflict(holders[i].ticket.claims, holders[j].ticket.claims)
  {
    var first, second := if i < j then i else j, if i < j then j else i;
    assert !conflict(holders[first].ticket.claims, holders[second].ticket.claims);
  }

  /** Work that joins an enclosing lease which covers it, in the same radio terms, conflicts with no
      other holder; among ranges in order it is enough that the lease holds every frequency. */
  lemma NestedWorkIsSafe(events: seq<Event<Claimed>>, i: nat, j: nat, nested: Claimed)
    requires var holders := Run(Initial(), Claims.Conflict, events).holders;
             i < |holders| && j < |holders| && i != j &&
             Claims.Covers(holders[i].ticket.claims, nested) && Claims.CarriesAir(holders[j].ticket.claims) &&
             (Claims.SameTerms(holders[i].ticket.claims, nested) ||
              (Claims.SameTermsInOrder(holders[i].ticket.claims, nested) && Claims.InOrder(nested) &&
                Claims.InOrder(holders[j].ticket.claims)))
    ensures !Claims.Conflict(nested, Run(Initial(), Claims.Conflict, events).holders[j].ticket.claims)
  {
    var holders := Run(Initial(), Claims.Conflict, events).holders;
    HoldersNeverConflict(events, i, j);
    Claims.CoversProtectsIff(holders[i].ticket.claims, nested);
    if Claims.InOrder(nested) {
      Claims.CoversProtectsInOrderIff(holders[i].ticket.claims, nested);
    }
  }
}
