/**
 Custody of owners while their names travel (`crates/memory/src/indexed_custody.rs`). A cell is `None`
 while its memory is uninitialized or moved from, so that every read of it needs a proof that a value is
 there. What a caller must prove about names by the `CustodyDomain` contract is in the preconditions.
 */
module Custody {
  import opened Wrappers

  /** The values in `cells` from place `k` on, in place order. */
  function From<T>(cells: seq<Option<T>>, k: nat): seq<T>
    requires k <= |cells|
    decreases |cells| - k
  {
    if k == |cells| then []
    else (if cells[k].Some? then [cells[k].value] else []) + From(cells, k + 1)
  }

  /** Every value in `cells`, in place order. */
  function Retained<T>(cells: seq<Option<T>>): seq<T> {
    From(cells, 0)
  }

  ghost predicate BitsAgree<T>(cells: seq<Option<T>>, initialized: seq<bool>) {
    |initialized| == |cells| && forall i :: 0 <= i < |cells| ==> (initialized[i] <==> cells[i].Some?)
  }

  /** `cells` with every value in them quarantined. */
  function Quarantined<T>(cells: seq<Option<T>>, quarantine: T -> T): (r: seq<Option<T>>)
    ensures |r| == |cells|
    ensures forall i :: 0 <= i < |r| ==> r[i] == if cells[i].Some? then Some(quarantine(cells[i].value)) else None
  {
    if cells == [] then []
    else
      var last := cells[|cells| - 1];
      Quarantined(cells[..|cells| - 1], quarantine) + [if last.Some? then Some(quarantine(last.value)) else None]
  }

  class IndexedCustody<T> {
    var values: seq<Option<T>>
    var initialized: seq<bool>
    /** The names handed out and not yet consumed. */
    ghost var names: set<nat>
    /** What came in and what left. */
    ghost var ledger: Ledger<T>

    /** The initialization bits are the outstanding names, and say which cells hold a value. */
    ghost predicate Valid()
      reads this
    {
      && BitsAgree(values, initialized)
      && (forall i :: i in names <==> 0 <= i < |initialized| && initialized[i])
      && ledger.cells == values && ledger.drained == [] && ledger.kept == []
    }

    constructor (n: nat)
      ensures Valid() && names == {} && ledger == Opened(n)
    {
      values := seq(n, _ => None);
      initialized := seq(n, _ => false);
      names := {};
      ledger := Opened(n);
    }

    method Insert(name: nat, value: T)
      requires Valid() && name < |values| && name !in names
      modifies this
      ensures Valid() && ledger == Step(old(ledger), Inserted(name, value)) && names == old(names) + {name}
    {
      values := values[name := Some(value)];
      initialized := initialized[name := true];
      names := names + {name};
      ledger := Step(ledger, Inserted(name, value));
    }

    method WithMut(name: nat, apply: T -> T)
      requires Valid() && name in names
      modifies this`values, this`ledger
      ensures Valid() && old(values)[name].Some? && ledger == Step(old(ledger), Changed(name, apply))
    {
      values := values[name := Some(apply(values[name].value))];
      ledger := Step(ledger, Changed(name, apply));
    }

    method Take(name: nat) returns (value: T)
      requires Valid() && name in names
      modifies this
      ensures Valid() && old(values)[name] == Some(value) && ledger == Step(old(ledger), Taken(name))
      ensures names == old(names) - {name}
    {
      value := values[name].value;
      ledger := Step(ledger, Taken(name));
      values := values[name := None];
      initialized := initialized[name := false];
      names := names - {name};
    }

    /** The ordinary end: the cells move out and the store is gone. */
    method Finish() returns (drained: Drained<T>)
      requires Valid()
      modifies this`ledger
      ensures ledger == Step(old(ledger), Finished)
      ensures fresh(drained) && drained.Valid() && drained.Rest() == ledger.drained
    {
      drained := new Drained(values, initialized);
      ledger := Step(ledger, Finished);
      assert ledger.drained == [] + Retained(values) == Retained(values);
    }

    /** The destructor of a store that was not finished: every value left is quarantined where it is. */
    method Quarantine(quarantine: T -> T)
      requires Valid()
      modifies this`values, this`ledger
      ensures values == Quarantined(old(values), quarantine)
      ensures ledger == Step(old(ledger), Destroyed(quarantine)) && ledger.kept == Retained(values)
    {
      for k := 0 to |values|
        invariant |values| == |old(values)| && BitsAgree(values, initialized) && ledger == old(ledger)
        invariant forall i :: k <= i < |values| ==> values[i] == old(values)[i]
        invariant forall i :: 0 <= i < k ==>
          values[i] == if old(values)[i].Some? then Some(quarantine(old(values)[i].value)) else None
      {
        if initialized[k] {
          values := values[k := Some(quarantine(values[k].value))];
        }
      }
      ledger := Step(ledger, Destroyed(quarantine));
      assert values == Quarantined(old(values), quarantine);
      assert ledger.kept == [] + Retained(values) == Retained(values);
    }
  }

  /** What a finished store still retained, yielded once each. */
  class Drained<T> {
    var values: seq<Option<T>>
    var initialized: seq<bool>
    var next: nat

    ghost predicate Valid()
      reads this
    {
      BitsAgree(values, initialized) && next <= |values|
    }

    ghost function Rest(): seq<T>
      requires Valid()
      reads this
    {
      From(values, next)
    }

    constructor (values: seq<Option<T>>, initialized: seq<bool>)
      requires BitsAgree(values, initialized)
      ensures Valid() && Rest() == Retained(values)
    {
      this.values, this.initialized, next := values, initialized, 0;
    }

    /** Yields the values in place order, then nothing. */
    method Next() returns (value: Option<T>)
      requires Valid()
      modifies this
      ensures Valid()
      ensures if old(Rest()) == [] then value == None && Rest() == []
              else value == Some(old(Rest())[0]) && Rest() == old(Rest())[1..]
    {
      while next < |values|
        invariant Valid() && Rest() == old(Rest())
        decreases |values| - next
      {
        var k := next;
        next := next + 1;
        if initialized[k] {
          value := values[k];
          FromLater(values, values[k := None], next);
          initialized, values := initialized[k := false], values[k := None];
          return;
        }
      }
      return None;
    }

    /** Dropping drops everything not yet taken. */
    method Drop() returns (dropped: seq<T>)
      requires Valid()
      modifies this
      ensures Valid() && dropped == old(Rest()) && Rest() == []
    {
      dropped := [];
      var value := Next();
      while value.Some?
        invariant Valid()
        invariant old(Rest()) == dropped + (if value.Some? then [value.value] else []) + Rest()
        invariant value.None? ==> Rest() == []
        decreases |Rest()|, value.Some?
      {
        dropped := dropped + [value.value];
        value := Next();
      }
    }
  }

  lemma {:induction false} NothingFrom<T>(cells: seq<Option<T>>, k: nat)
    requires k <= |cells| && forall i :: 0 <= i < |cells| ==> cells[i] == None
    ensures From(cells, k) == []
    decreases |cells| - k
  {
    if k < |cells| {
      NothingFrom(cells, k + 1);
    }
  }

  /** Cells before `k` do not matter to the values from `k` on. */
  lemma {:induction false} FromLater<T>(a: seq<Option<T>>, b: seq<Option<T>>, k: nat)
    requires k <= |a| == |b| && forall i :: k <= i < |a| ==> a[i] == b[i]
    ensures From(a, k) == From(b, k)
    decreases |a| - k
  {
    if k < |a| {
      FromLater(a, b, k + 1);
    }
  }

  // ------------------------------------------------------ runs

  datatype Op<!T> =
    | Inserted(i: nat, value: T)
    | Changed(i: nat, apply: T -> T)
    | Taken(i: nat)
    | Finished
    | Destroyed(quarantine: T -> T)

  /** The cells that names reach, what was ever inserted and taken, what a finish handed over, and what
      a destruction left in place. */
  datatype Ledger<T> = Ledger(cells: seq<Option<T>>, inserted: seq<T>, taken: seq<T>, drained: seq<T>, kept: seq<T>)

  function Opened<T>(n: nat): Ledger<T> {
    Ledger(seq(n, _ => None), [], [], [], [])
  }

  predicate Ends(op: Op) {
    op.Finished? || op.Destroyed?
  }

  /** What the names allow: a vacant name inserts, an outstanding one changes or takes. A change or a
      quarantine keeps whose owner it is. */
  ghost predicate Allowed<T(!new), K(!new)>(cells: seq<Option<T>>, op: Op<T>, key: T -> K) {
    match op
    case Inserted(i, _) => i < |cells| && cells[i].None?
    case Changed(i, apply) => i < |cells| && cells[i].Some? && forall x :: key(apply(x)) == key(x)
    case Taken(i) => i < |cells| && cells[i].Some?
    case Finished => true
    case Destroyed(quarantine) => forall x :: key(quarantine(x)) == key(x)
  }

  /** After an end no cell is left for a name to reach. */
  function Step<T>(s: Ledger<T>, op: Op<T>): Ledger<T>
    requires !Ends(op) ==> op.i < |s.cells| && (!op.Inserted? ==> s.cells[op.i].Some?)
  {
    match op
    case Inserted(i, value) => s.(cells := s.cells[i := Some(value)], inserted := s.inserted + [value])
    case Changed(i, apply) => s.(cells := s.cells[i := Some(apply(s.cells[i].value))])
    case Taken(i) => s.(cells := s.cells[i := None], taken := s.taken + [s.cells[i].value])
    case Finished => s.(cells := [], drained := s.drained + Retained(s.cells))
    case Destroyed(quarantine) => s.(cells := [], kept := s.kept + Retained(Quarantined(s.cells, quarantine)))
  }

  /** How often the owner `k` occurs. */
  function Count<T, K(==)>(xs: seq<T>, key: T -> K, k: K): nat {
    if xs == [] then 0 else Count(xs[..|xs| - 1], key, k) + if key(xs[|xs| - 1]) == k then 1 else 0
  }

  /** Every owner inserted was taken, drained or kept in quarantine, or is still retained, as often as it
      was inserted. */
  ghost predicate Balanced<T, K(!new)>(s: Ledger<T>, key: T -> K) {
    forall k :: Count(s.inserted, key, k) ==
                Count(s.taken, key, k) + Count(s.drained, key, k) + Count(s.kept, key, k) +
                  Count(Retained(s.cells), key, k)
  }

  function One<T, K(==)>(cell: Option<T>, key: T -> K, k: K): nat {
    if cell.Some? && key(cell.value) == k then 1 else 0
  }

  lemma {:induction false} CountConcat<T, K>(a: seq<T>, b: seq<T>, key: T -> K, k: K)
    ensures Count(a + b, key, k) == Count(a, key, k) + Count(b, key, k)
  {
    if b == [] {
      assert a + b == a;
    } else {
      CountConcat(a, b[..|b| - 1], key, k);
      assert (a + b)[..|a + b| - 1] == a + b[..|b| - 1];
    }
  }

  lemma CountCell<T, K>(cell: Option<T>, key: T -> K, k: K)
    ensures Count(if cell.Some? then [cell.value] else [], key, k) == One(cell, key, k)
  {
    if cell.Some? {
      assert [cell.value][..0] == [];
    }
  }

  lemma CountFrom<T, K>(cells: seq<Option<T>>, j: nat, key: T -> K, k: K)
    requires j < |cells|
    ensures Count(From(cells, j), key, k) == One(cells[j], key, k) + Count(From(cells, j + 1), key, k)
  {
    CountCell(cells[j], key, k);
    CountConcat(if cells[j].Some? then [cells[j].value] else [], From(cells, j + 1), key, k);
  }

  /** Replacing one cell changes the count by that cell. */
  lemma {:induction false} CountReplaced<T, K>(cells: seq<Option<T>>, j: nat, i: nat, cell: Option<T>,
                                               key: T -> K, k: K)
    requires j <= i < |cells|
    ensures Count(From(cells[i := cell], j), key, k) + One(cells[i], key, k) ==
            Count(From(cells, j), key, k) + One(cell, key, k)
    decreases i - j
  {
    var after := cells[i := cell];
    CountFrom(cells, j, key, k);
    CountFrom(after, j, key, k);
    if j == i {
      FromLater(cells, after, j + 1);
    } else {
      CountReplaced(cells, j + 1, i, cell, key, k);
    }
  }

  lemma {:induction false} CountQuarantined<T(!new), K>(cells: seq<Option<T>>, j: nat, quarantine: T -> T,
                                                        key: T -> K, k: K)
    requires j <= |cells| && forall x :: key(quarantine(x)) == key(x)
    ensures Count(From(Quarantined(cells, quarantine), j), key, k) == Count(From(cells, j), key, k)
    decreases |cells| - j
  {
    if j < |cells| {
      CountQuarantined(cells, j + 1, quarantine, key, k);
      CountFrom(cells, j, key, k);
      CountFrom(Quarantined(cells, quarantine), j, key, k);
    }
  }

  lemma StepBalanced<T(!new), K(!new)>(s: Ledger<T>, op: Op<T>, key: T -> K)
    requires Balanced(s, key) && Allowed(s.cells, op, key)
    ensures Balanced(Step(s, op), key)
  {
    forall k ensures var after := Step(s, op);
                     Count(after.inserted, key, k) ==
                     Count(after.taken, key, k) + Count(after.drained, key, k) + Count(after.kept, key, k) +
                       Count(Retained(after.cells), key, k) {
      if Ends(op) {
        EndCounted(s, op, key, k);
      } else {
        NamedCounted(s, op, key, k);
      }
    }
  }

  lemma NamedCounted<T(!new), K(!new)>(s: Ledger<T>, op: Op<T>, key: T -> K, k: K)
    requires !Ends(op) && Allowed(s.cells, op, key)
    ensures var after := Step(s, op);
            Count(after.inserted, key, k) - Count(after.taken, key, k) - Count(Retained(after.cells), key, k) ==
            Count(s.inserted, key, k) - Count(s.taken, key, k) - Count(Retained(s.cells), key, k)
  {
    CountReplaced(s.cells, 0, op.i, Step(s, op).cells[op.i], key, k);
    if op.Inserted? {
      CountConcat(s.inserted, [op.value], key, k);
      CountCell(Some(op.value), key, k);
    } else if op.Taken? {
      CountConcat(s.taken, [s.cells[op.i].value], key, k);
      CountCell(s.cells[op.i], key, k);
    }
  }

  lemma EndCounted<T(!new), K(!new)>(s: Ledger<T>, op: Op<T>, key: T -> K, k: K)
    requires Ends(op) && Allowed(s.cells, op, key)
    ensures var after := Step(s, op);
            Count(after.drained, key, k) + Count(after.kept, key, k) + Count(Retained(after.cells), key, k) ==
            Count(s.drained, key, k) + Count(s.kept, key, k) + Count(Retained(s.cells), key, k)
  {
    if op.Finished? {
      CountConcat(s.drained, Retained(s.cells), key, k);
    } else {
      CountConcat(s.kept, Retained(Quarantined(s.cells, op.quarantine)), key, k);
      CountQuarantined(s.cells, 0, op.quarantine, key, k);
    }
  }

  ghost predicate IsRun<T(!new), K(!new)>(n: nat, trace: seq<Ledger<T>>, ops: seq<Op<T>>, key: T -> K) {
    && |trace| == |ops| + 1
    && trace[0] == Opened(n)
    && forall j :: 0 <= j < |ops| ==> Allowed(trace[j].cells, ops[j], key) && trace[j + 1] == Step(trace[j], ops[j])
  }

  lemma {:induction false} RunBalanced<T(!new), K(!new)>(n: nat, trace: seq<Ledger<T>>, ops: seq<Op<T>>, key: T -> K,
                                                         j: nat)
    requires IsRun(n, trace, ops, key) && j < |trace|
    ensures Balanced(trace[j], key)
  {
    if j == 0 {
      NothingFrom(trace[0].cells, 0);
    } else {
      RunBalanced(n, trace, ops, key, j - 1);
      StepBalanced(trace[j - 1], ops[j - 1], key);
    }
  }

  /** Once a run has ended in a finish or a destruction, every owner inserted left as often as it came: by
      its name, by the drain, or into quarantine. */
  lemma EveryOwnerLeavesOnce<T(!new), K(!new)>(n: nat, trace: seq<Ledger<T>>, ops: seq<Op<T>>, key: T -> K, k: K)
    requires IsRun(n, trace, ops, key) && ops != [] && Ends(ops[|ops| - 1])
    ensures var end := trace[|ops|];
            Count(end.inserted, key, k) ==
            Count(end.taken, key, k) + Count(end.drained, key, k) + Count(end.kept, key, k)
  {
    RunBalanced(n, trace, ops, key, |ops|);
    assert trace[|ops| - 1 + 1] == Step(trace[|ops| - 1], ops[|ops| - 1]);
  }

  lemma OtherNamesLeaveIt<T>(s: Ledger<T>, op: Op<T>, i: nat)
    requires !Ends(op) && op.i < |s.cells| && (!op.Inserted? ==> s.cells[op.i].Some?) && i < |s.cells| && i != op.i
    ensures |Step(s, op).cells| == |s.cells| && Step(s, op).cells[i] == s.cells[i]
  {
  }

  lemma {:induction false} StaysInPlace<T(!new), K(!new)>(n: nat, trace: seq<Ledger<T>>, ops: seq<Op<T>>, key: T -> K,
                                                          j: nat, m: nat, i: nat, value: T)
    requires IsRun(n, trace, ops, key) && j < m < |trace| && ops[j] == Inserted(i, value)
    requires forall l :: j < l < m ==> !Ends(ops[l]) && ops[l].i != i
    ensures i < |trace[m].cells| && trace[m].cells[i] == Some(value)
  {
    if m == j + 1 {
      assert trace[j + 1] == Step(trace[j], ops[j]);
    } else {
      StaysInPlace(n, trace, ops, key, j, m - 1, i, value);
      assert Allowed(trace[m - 1].cells, ops[m - 1], key);
      OtherNamesLeaveIt(trace[m - 1], ops[m - 1], i);
      assert trace[m - 1 + 1] == Step(trace[m - 1], ops[m - 1]);
    }
  }

  /** A name takes out exactly the value it was given for, whatever other names did meanwhile. */
  lemma TakenByItsOwnName<T(!new), K(!new)>(n: nat, trace: seq<Ledger<T>>, ops: seq<Op<T>>, key: T -> K, j: nat,
                                            m: nat, i: nat, value: T)
    requires IsRun(n, trace, ops, key) && j < m < |ops| && ops[j] == Inserted(i, value) && ops[m] == Taken(i)
    requires forall l :: j < l < m ==> !Ends(ops[l]) && ops[l].i != i
    ensures trace[m + 1].taken == trace[m].taken + [value]
  {
    StaysInPlace(n, trace, ops, key, j, m, i, value);
  }
}
