/**
 Normal form of claims (`normalize` in `stand/claims/src/lib.rs`): one claim per resource, in order,
 an exclusive claim absorbing shared ones. It is unique and conflicts and covers as the claims it
 came from.
 */
module ClaimNormal {
  import opened Wrappers
  import opened Claims
  import Sorting
  import Spectrum

  // ------------------------------------------------------ order of names

  /** Lexicographic order by character. */
  predicate Less(a: string, b: string) {
    b != [] && (a == [] || a[0] < b[0] || (a[0] == b[0] && Less(a[1..], b[1..])))
  }

  lemma {:induction false} LessTotal(a: string, b: string)
    ensures a == b || Less(a, b) || Less(b, a)
  {
    if a != [] && b != [] {
      LessTotal(a[1..], b[1..]);
      if a[0] == b[0] && a[1..] == b[1..] {
        assert a == [a[0]] + a[1..] && b == [b[0]] + b[1..];
      }
    }
  }

  lemma {:induction false} LessTransitive(a: string, b: string, c: string)
    requires Less(a, b) && Less(b, c)
    ensures Less(a, c)
  {
    if a != [] && a[0] == b[0] && b[0] == c[0] {
      LessTransitive(a[1..], b[1..], c[1..]);
    }
  }

  lemma {:induction false} LessIrreflexive(a: string)
    ensures !Less(a, a)
  {
    if a != [] {
      LessIrreflexive(a[1..]);
    }
  }

  /** Where they first differ, the lesser text ends or has the lesser character. */
  lemma {:induction false} LessMeaning(a: string, b: string)
    ensures Less(a, b) <==>
            exists k: nat :: k <= |a| && k < |b| && a[..k] == b[..k] && (k == |a| || a[k] < b[k])
  {
    if a == [] {
      assert b != [] ==> a[..0] == b[..0];
    } else if b != [] && a[0] == b[0] {
      LessMeaning(a[1..], b[1..]);
      if Less(a, b) {
        var c, d := a[1..], b[1..];
        var k: nat :| k <= |c| && k < |d| && c[..k] == d[..k] && (k == |c| || c[k] < d[k]);
        assert a[..k + 1] == [a[0]] + a[1..][..k] && b[..k + 1] == [b[0]] + b[1..][..k];
      }
      if k: nat :| k <= |a| && k < |b| && a[..k] == b[..k] && (k == |a| || a[k] < b[k]) {
        assert k > 0 && a[1..][..k - 1] == a[..k][1..] && b[1..][..k - 1] == b[..k][1..];
        assert a[1..][..k - 1] == b[1..][..k - 1];
      }
    } else if b != [] {
      assert a[..0] == b[..0];
      if k: nat :| k <= |a| && k < |b| && a[..k] == b[..k] && (k == |a| || a[k] < b[k]) {
        assert k > 0 ==> a[..k][0] == b[..k][0];
      }
    }
  }

  // ------------------------------------------------------ meaning and normal form

  predicate Names(claims: seq<Claim>, resource: string) {
    Claim(resource, Exclusive) in claims || Claim(resource, Shared) in claims
  }

  /** The same resources are claimed, and the same ones exclusively. */
  ghost predicate SameClaims(a: seq<Claim>, b: seq<Claim>) {
    && (forall r :: Names(a, r) <==> Names(b, r))
    && (forall r :: Claim(r, Exclusive) in a <==> Claim(r, Exclusive) in b)
  }

  predicate Ordered(claims: seq<Claim>) {
    forall i, j :: 0 <= i < j < |claims| ==> Less(claims[i].resource, claims[j].resource)
  }

  predicate Distinct(claims: seq<Claim>) {
    forall i, j :: 0 <= i < j < |claims| ==> claims[i].resource != claims[j].resource
  }

  /** What `normalize` returns for `claims`. */
  ghost predicate Normalized(claims: seq<Claim>, n: seq<Claim>) {
    if claims == [] || Whole(claims) then n == [Claim(STAND, Exclusive)]
    else Ordered(n) && SameClaims(n, claims)
  }

  // ------------------------------------------------------ the loop

  /** Position of the claim on `resource`, or the length. */
  function Known(claims: seq<Claim>, resource: string): (i: nat)
    ensures i <= |claims| && (i < |claims| ==> claims[i].resource == resource)
    ensures forall k :: 0 <= k < i ==> claims[k].resource != resource
    ensures i < |claims| <==> Names(claims, resource)
  {
    if claims == [] then 0
    else if claims[0].resource == resource then
      EitherMode(claims[0]);
      0
    else
      assert claims == [claims[0]] + claims[1..];
      Known(claims[1..], resource) + 1
  }

  /** One more claim taken in. */
  function Absorb(known: seq<Claim>, claim: Claim): seq<Claim> {
    var i := Known(known, claim.resource);
    if i == |known| then known + [claim]
    else if claim.mode == Exclusive then known[i := Claim(known[i].resource, Exclusive)]
    else known
  }

  lemma AbsorbKeeps(known: seq<Claim>, claim: Claim, claims: seq<Claim>)
    requires Distinct(known) && SameClaims(known, claims)
    ensures Distinct(Absorb(known, claim)) && SameClaims(Absorb(known, claim), claims + [claim])
  {
    var i, next := Known(known, claim.resource), Absorb(known, claim);
    forall r ensures Names(next, r) <==> Names(claims + [claim], r)
             ensures Claim(r, Exclusive) in next <==> Claim(r, Exclusive) in claims + [claim] {
      assert Names(known, r) <==> Names(claims, r);
      assert Claim(r, Exclusive) in known <==> Claim(r, Exclusive) in claims;
      if i < |known| {
        AbsorbAt(known, i, claim, r);
      }
    }
  }

  lemma AbsorbAt(known: seq<Claim>, i: nat, claim: Claim, r: string)
    requires Distinct(known) && i < |known| && known[i].resource == claim.resource
    ensures var next := known[i := Claim(claim.resource, Exclusive)];
            (Names(next, r) <==> Names(known, r)) &&
            (Claim(r, Exclusive) in next <==> Claim(r, Exclusive) in known || r == claim.resource)
  {
    var next := known[i := Claim(claim.resource, Exclusive)];
    assert next[i] == Claim(claim.resource, Exclusive);
    EitherMode(known[i]);
    if r != claim.resource {
      assert forall k, m :: 0 <= k < |known| ==> (known[k] == Claim(r, m) <==> next[k] == Claim(r, m));
    }
  }

  predicate ByResource(a: Claim, b: Claim) {
    Less(a.resource, b.resource)
  }

  lemma SortKeeps(claims: seq<Claim>)
    requires Distinct(claims)
    ensures var sorted := Sorting.Sort(ByResource, claims);
            Ordered(sorted) && SameClaims(sorted, claims)
  {
    forall a, b, c | ByResource(a, b) && ByResource(b, c) ensures ByResource(a, c) {
      LessTransitive(a.resource, b.resource, c.resource);
    }
    forall i, j | 0 <= i < j < |claims| ensures ByResource(claims[i], claims[j]) || ByResource(claims[j], claims[i]) {
      LessTotal(claims[i].resource, claims[j].resource);
    }
    Sorting.SortOrdered(ByResource, claims);
    Sorting.SameMembers(Sorting.Sort(ByResource, claims), claims);
  }

  method Normalize(claims: seq<Claim>) returns (n: seq<Claim>)
    ensures Normalized(claims, n)
  {
    if claims == [] || Whole(claims) {
      return [Claim(STAND, Exclusive)];
    }
    n := [];
    for k := 0 to |claims|
      invariant Distinct(n) && SameClaims(n, claims[..k])
    {
      AbsorbKeeps(n, claims[k], claims[..k]);
      assert claims[..k + 1] == claims[..k] + [claims[k]];
      n := Absorb(n, claims[k]);
    }
    assert claims[..|claims|] == claims;
    SortKeeps(n);
    n := Sorting.Sort(ByResource, n);
  }

  // ------------------------------------------------------ the normal form is unique

  lemma OrderedOnce(claims: seq<Claim>, i: nat, c: Claim)
    requires Ordered(claims) && i < |claims| && c in claims && c.resource == claims[i].resource
    ensures c == claims[i]
  {
    var j :| 0 <= j < |claims| && claims[j] == c;
    LessIrreflexive(c.resource);
  }

  lemma SubsetOf(a: seq<Claim>, b: seq<Claim>, c: Claim)
    requires Ordered(a) && SameClaims(a, b) && c in a
    ensures c in b
  {
    EitherMode(c);
    assert Names(a, c.resource) && Names(b, c.resource);
    if c.mode == Shared && c !in b {
      var i :| 0 <= i < |a| && a[i] == c;
      OrderedOnce(a, i, Claim(c.resource, Exclusive));
    }
  }

  lemma {:induction false} OrderedUnique(a: seq<Claim>, b: seq<Claim>)
    requires Ordered(a) && Ordered(b) && forall c :: c in a <==> c in b
    ensures a == b
  {
    EmptyTogether(a, b);
    if a != [] {
      assert a[0] in b && b[0] in a;
      SameFirst(a, b);
      forall c ensures c in a[1..] <==> c in b[1..] {
        Tail(a, c);
        Tail(b, c);
      }
      OrderedUnique(a[1..], b[1..]);
      assert a == [a[0]] + a[1..] && b == [b[0]] + b[1..];
    }
  }

  lemma EmptyTogether(a: seq<Claim>, b: seq<Claim>)
    requires forall c :: c in a <==> c in b
    ensures a == [] <==> b == []
  {
    if a != [] {
      assert a[0] in b;
    }
    if b != [] {
      assert b[0] in a;
    }
  }

  lemma Tail(a: seq<Claim>, c: Claim)
    requires Ordered(a) && a != []
    ensures c in a[1..] <==> c in a && c != a[0]
  {
    LessIrreflexive(a[0].resource);
    assert a == [a[0]] + a[1..];
  }

  lemma SameFirst(a: seq<Claim>, b: seq<Claim>)
    requires Ordered(a) && Ordered(b) && a != [] && b != [] && a[0] in b && b[0] in a
    ensures a[0] == b[0]
  {
    var i :| 0 <= i < |b| && b[i] == a[0];
    var j :| 0 <= j < |a| && a[j] == b[0];
    if 0 < i && 0 < j {
      LessTransitive(a[0].resource, b[0].resource, a[0].resource);
      LessIrreflexive(a[0].resource);
    }
  }

  /** Claims that mean the same have the same normal form. */
  lemma NormalFormUnique(a: seq<Claim>, b: seq<Claim>, m: seq<Claim>, n: seq<Claim>)
    requires Normalized(a, m) && Normalized(b, n) && SameClaims(a, b) && (a == [] <==> b == [])
    ensures m == n
  {
    SameWhole(a, b);
    if a != [] && !Whole(a) {
      forall c ensures c in m <==> c in n {
        if c in m {
          SubsetOf(m, n, c);
        }
        if c in n {
          SubsetOf(n, m, c);
        }
      }
      OrderedUnique(m, n);
    }
  }

  /** Normalising twice changes nothing more. */
  lemma NormalizedTwice(a: seq<Claim>, m: seq<Claim>, n: seq<Claim>)
    requires Normalized(a, m) && Normalized(m, n)
    ensures m == n
  {
    if a == [] || Whole(a) {
      assert m[0] in m;
    } else {
      SameWhole(a, m);
      NotEmpty(a, m);
      NormalFormUnique(m, a, n, m);
    }
  }

  lemma NotEmpty(a: seq<Claim>, b: seq<Claim>)
    requires SameClaims(a, b) && a != []
    ensures b != []
  {
    var c := a[0];
    EitherMode(c);
    assert c in a;
    assert Names(a, c.resource) && Names(b, c.resource);
  }

  // ------------------------------------------------------ conflict and covering of the normal form

  lemma NamesAny(a: seq<Claim>, c: Claim)
    requires c in a
    ensures Names(a, c.resource)
  {
    EitherMode(c);
  }

  lemma SameWhole(a: seq<Claim>, b: seq<Claim>)
    requires SameClaims(a, b)
    ensures Whole(a) <==> Whole(b)
  {
    WholeNames(a);
    WholeNames(b);
  }

  lemma WholeNames(a: seq<Claim>)
    ensures Whole(a) <==> Names(a, STAND)
  {
    if Whole(a) {
      var c :| c in a && c.resource == STAND;
      NamesAny(a, c);
    }
  }

  /** A claim of `a` has a counterpart in `b`, exclusive if it is. */
  lemma Counterpart(a: seq<Claim>, b: seq<Claim>, c: Claim) returns (d: Claim)
    requires SameClaims(a, b) && c in a
    ensures d in b && d.resource == c.resource && (c.mode == Exclusive ==> d.mode == Exclusive)
  {
    NamesAny(a, c);
    assert Names(b, c.resource);
    d := if Claim(c.resource, Exclusive) in b then Claim(c.resource, Exclusive) else Claim(c.resource, Shared);
  }

  lemma SameRanges(a: seq<Claim>, b: seq<Claim>, r: Range)
    requires SameClaims(a, b) && r in Ranges(a)
    ensures r in Ranges(b)
  {
    InRanges(a, r);
    var c :| c in a && Spectrum.Parse(c.resource) == Some(r);
    var d := Counterpart(a, b, c);
    InRanges(b, r);
  }

  lemma SameNoRanges(a: seq<Claim>, b: seq<Claim>)
    requires SameClaims(a, b)
    ensures Ranges(a) == [] <==> Ranges(b) == []
  {
    if Ranges(a) != [] {
      SameRanges(a, b, Ranges(a)[0]);
    }
    if Ranges(b) != [] {
      SameRanges(b, a, Ranges(b)[0]);
    }
  }

  lemma SameConflict(a: seq<Claim>, b: seq<Claim>, x: seq<Claim>)
    requires SameClaims(a, b) && Conflict(a, x)
    ensures Conflict(b, x)
  {
    SameWhole(a, b);
    SameNoRanges(a, b);
    if Whole(a) || Whole(x) {
    } else if RangesConflict(Ranges(a), Ranges(x)) {
      var r, y :| r in Ranges(a) && y in Ranges(x) && Spectrum.Conflicts(r, y);
      SameRanges(a, b, r);
    } else {
      var c, y :| c in a && y in x && Collide(c, y, ByRanges(a, x));
      var d := Counterpart(a, b, c);
      assert Collide(d, y, ByRanges(b, x));
    }
  }

  /** On claims that are not empty, normalising changes no conflict. */
  lemma NormalizedConflict(a: seq<Claim>, n: seq<Claim>, x: seq<Claim>)
    requires Normalized(a, n) && a != []
    ensures Conflict(n, x) == Conflict(a, x)
  {
    if Whole(a) {
      assert n[0] in n;
    } else {
      if Conflict(a, x) {
        SameConflict(a, n, x);
      }
      if Conflict(n, x) {
        SameConflict(n, a, x);
      }
    }
  }

  /** No claims at all, once normalised, conflict with everything. */
  lemma EmptyClaimsTheStand(n: seq<Claim>, x: seq<Claim>)
    requires Normalized([], n)
    ensures Conflict(n, x)
  {
    assert n[0] in n;
  }

  lemma SameHolds(a: seq<Claim>, b: seq<Claim>, wanted: Claim)
    requires SameClaims(a, b) && Holds(a, wanted)
    ensures Holds(b, wanted)
  {
    match Spectrum.Parse(wanted.resource)
    case Some(range) =>
      if exists held :: held in Ranges(a) && Spectrum.Covers(held, range) {
        var held :| held in Ranges(a) && Spectrum.Covers(held, range);
        SameRanges(a, b, held);
      } else {
        var held :| held in a && held.resource == AIR && held.mode == Exclusive;
        var other := Counterpart(a, b, held);
      }
    case None =>
      var held :| held in a && held.resource == wanted.resource && (held.mode == Exclusive || wanted.mode == Shared);
      var other := Counterpart(a, b, held);
  }

  lemma HoldsStronger(outer: seq<Claim>, c: Claim, d: Claim)
    requires Holds(outer, d) && d.resource == c.resource && (c.mode == Exclusive ==> d.mode == Exclusive)
    ensures Holds(outer, c)
  {
  }

  /** Covering depends only on what is claimed, on both sides. */
  lemma SameCovers(outer: seq<Claim>, inner: seq<Claim>, outer': seq<Claim>, inner': seq<Claim>)
    requires SameClaims(outer, outer') && SameClaims(inner, inner') && Covers(outer, inner)
    ensures Covers(outer', inner')
  {
    SameWhole(outer, outer');
    if !Whole(outer) {
      forall wanted | wanted in inner' ensures Holds(outer', wanted) {
        var d := Counterpart(inner', inner, wanted);
        HoldsStronger(outer, wanted, d);
        SameHolds(outer, outer', wanted);
      }
    }
  }
}
