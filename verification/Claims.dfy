/**
 Claims of `stand/claims/src/lib.rs`: conflict, covering, and
 exactly when covering claims conflict with everything the covered ones conflict with.
 */
module Claims {
  import opened Wrappers
  import Spectrum

  type Range = Spectrum.Range

  const STAND := "stand"
  const AIR := "air"

  datatype Mode = Exclusive | Shared

  datatype Claim = Claim(resource: string, mode: Mode)

  predicate Whole(claims: seq<Claim>) {
    exists c :: c in claims && c.resource == STAND
  }

  /** What the claims that parse as ranges parse to. */
  function Ranges(claims: seq<Claim>): seq<Range> {
    if claims == [] then []
    else
      var first := Spectrum.Parse(claims[0].resource);
      (if first.Some? then [first.value] else []) + Ranges(claims[1..])
  }

  predicate RangesConflict(a: seq<Range>, b: seq<Range>) {
    exists x, y :: x in a && y in b && Spectrum.Conflicts(x, y)
  }

  /** Two claims on one resource, at least one exclusive; ranges, and with `byRanges` the air, are
      ordered elsewhere. */
  predicate Collide(x: Claim, y: Claim, byRanges: bool) {
    && x.resource == y.resource && !Spectrum.IsRange(x.resource) && !(byRanges && x.resource == AIR)
    && (x.mode == Exclusive || y.mode == Exclusive)
  }

  predicate ResourcesConflict(a: seq<Claim>, b: seq<Claim>, byRanges: bool) {
    exists x, y :: x in a && y in b && Collide(x, y, byRanges)
  }

  predicate ByRanges(a: seq<Claim>, b: seq<Claim>) {
    Ranges(a) != [] && Ranges(b) != []
  }

  /** One side claims the whole stand, two ranges clash, or both name a resource that one wants alone. */
  predicate Conflict(a: seq<Claim>, b: seq<Claim>) {
    || Whole(a) || Whole(b)
    || RangesConflict(Ranges(a), Ranges(b))
    || ResourcesConflict(a, b, ByRanges(a, b))
  }

  predicate HoldsAir(claims: seq<Claim>) {
    exists c :: c in claims && c.resource == AIR && c.mode == Exclusive
  }

  predicate HoldsClaim(claims: seq<Claim>, wanted: Claim) {
    wanted.resource != STAND
    && exists held :: held in claims && held.resource == wanted.resource
                      && (held.mode == Exclusive || wanted.mode == Shared)
  }

  predicate Holds(outer: seq<Claim>, wanted: Claim) {
    match Spectrum.Parse(wanted.resource)
    case Some(range) => (exists held :: held in Ranges(outer) && Spectrum.Covers(held, range)) || HoldsAir(outer)
    case None => HoldsClaim(outer, wanted)
  }

  /** Each claim of `inner` is held by `outer`, at least as strongly. */
  predicate Covers(outer: seq<Claim>, inner: seq<Claim>) {
    Whole(outer) || forall wanted :: wanted in inner ==> Holds(outer, wanted)
  }

  lemma {:induction false} InRanges(claims: seq<Claim>, r: Range)
    ensures r in Ranges(claims) <==> exists c :: c in claims && Spectrum.Parse(c.resource) == Some(r)
  {
    if claims != [] {
      InRanges(claims[1..], r);
      assert forall c :: c in claims <==> c == claims[0] || c in claims[1..];
    }
  }

  /** Conflict does not depend on who asks. */
  lemma ConflictSymmetric(a: seq<Claim>, b: seq<Claim>)
    ensures Conflict(a, b) == Conflict(b, a)
  {
    if Conflict(a, b) {
      Halfway(a, b);
    }
    if Conflict(b, a) {
      Halfway(b, a);
    }
  }

  lemma Halfway(a: seq<Claim>, b: seq<Claim>)
    requires Conflict(a, b)
    ensures Conflict(b, a)
  {
    if RangesConflict(Ranges(a), Ranges(b)) {
      var x, y :| x in Ranges(a) && y in Ranges(b) && Spectrum.Conflicts(x, y);
      assert Spectrum.Conflicts(y, x);
    } else if ResourcesConflict(a, b, ByRanges(a, b)) {
      var x, y :| x in a && y in b && Collide(x, y, ByRanges(a, b));
      assert Collide(y, x, ByRanges(b, a));
    }
  }

  // ------------------------------------------------------ what conflicts

  /** Both sides name `resource`, and one of them wants it alone. */
  predicate NameAlone(a: seq<Claim>, b: seq<Claim>, resource: string) {
    || (Claim(resource, Exclusive) in a && (Claim(resource, Exclusive) in b || Claim(resource, Shared) in b))
    || (Claim(resource, Exclusive) in b && Claim(resource, Shared) in a)
  }

  predicate NamesStand(a: seq<Claim>) {
    Claim("stand", Exclusive) in a || Claim("stand", Shared) in a
  }

  /** Some range of `a` cannot be used beside some range of `b`. */
  ghost predicate RangesClash(a: seq<Claim>, b: seq<Claim>) {
    exists x, y, r, s :: x in a && y in b && Spectrum.Conflicts(r, s) &&
                         Spectrum.Parse(x.resource) == Some(r) && Spectrum.Parse(y.resource) == Some(s)
  }

  /** A resource that is neither a range nor, where both sides order their radio use by ranges, the air. */
  predicate Contended(a: seq<Claim>, b: seq<Claim>, resource: string) {
    !(Spectrum.PREFIX <= resource) && (resource == "air" ==> Ranges(a) == [] || Ranges(b) == [])
  }

  /** Claims conflict exactly if one side takes the whole stand, ranges clash, or one side wants alone what
      the other wants too. */
  lemma ConflictMeaning(a: seq<Claim>, b: seq<Claim>)
    ensures Conflict(a, b) <==>
            NamesStand(a) || NamesStand(b) || RangesClash(a, b) ||
            exists resource :: Contended(a, b, resource) && NameAlone(a, b, resource)
  {
    StandNamed(a);
    StandNamed(b);
    ClashIs(a, b);
    AloneIs(a, b);
  }

  lemma EitherMode(c: Claim)
    ensures c == Claim(c.resource, Exclusive) || c == Claim(c.resource, Shared)
  {
    match c.mode
    case Exclusive =>
    case Shared =>
  }

  lemma StandNamed(a: seq<Claim>)
    ensures Whole(a) <==> NamesStand(a)
  {
    if Whole(a) {
      var c :| c in a && c.resource == STAND;
      EitherMode(c);
    }
  }

  lemma ClashIs(a: seq<Claim>, b: seq<Claim>)
    ensures RangesConflict(Ranges(a), Ranges(b)) <==> RangesClash(a, b)
  {
    if RangesConflict(Ranges(a), Ranges(b)) {
      var r, s :| r in Ranges(a) && s in Ranges(b) && Spectrum.Conflicts(r, s);
      InRanges(a, r);
      InRanges(b, s);
    }
    if RangesClash(a, b) {
      var x, y, r, s :| x in a && y in b && Spectrum.Parse(x.resource) == Some(r) &&
        Spectrum.Parse(y.resource) == Some(s) && Spectrum.Conflicts(r, s);
      InRanges(a, r);
      InRanges(b, s);
    }
  }

  lemma AloneIs(a: seq<Claim>, b: seq<Claim>)
    ensures ResourcesConflict(a, b, ByRanges(a, b)) <==>
            exists resource :: Contended(a, b, resource) && NameAlone(a, b, resource)
  {
    if ResourcesConflict(a, b, ByRanges(a, b)) {
      var x, y :| x in a && y in b && Collide(x, y, ByRanges(a, b));
      EitherMode(x);
      EitherMode(y);
      assert Contended(a, b, x.resource) && NameAlone(a, b, x.resource);
    }
    if r :| Contended(a, b, r) && NameAlone(a, b, r) {
      var alone, shared := Claim(r, Exclusive), Claim(r, Shared);
      var x := if alone in a then alone else shared;
      var y := if alone in b then alone else shared;
      assert x in a && y in b && Collide(x, y, ByRanges(a, b));
    }
  }

  /** Sets that name no resource both, except shared on both sides, can be held at once. */
  lemma SharedApart(a: seq<Claim>, b: seq<Claim>)
    requires !NamesStand(a) && !NamesStand(b) && !RangesClash(a, b)
    requires forall x, y :: x in a && y in b && x.resource == y.resource ==> x.mode == Shared && y.mode == Shared
    ensures !Conflict(a, b)
  {
    ConflictMeaning(a, b);
  }

  // ------------------------------------------------------ covering

  /** The wider range asks for at least as much quiet and makes at least as much noise. */
  predicate Outdoes(h: Range, r: Range) {
    && h.low <= r.low && r.high <= h.high
    && (h.need == r.need || h.need == Spectrum.Strict || r.need == Spectrum.NoNeed)
    && (h.emits == r.emits || h.emits == Spectrum.Noisy || r.emits == Spectrum.Silent)
  }

  /** A range lies in a held one or under exclusive air; another resource is held exclusively, or shared for
      a shared use. */
  ghost predicate HeldIn(outer: seq<Claim>, c: Claim) {
    match Spectrum.Parse(c.resource)
    case Some(r) =>
      Claim("air", Exclusive) in outer || exists h :: h in Ranges(outer) && Outdoes(h, r)
    case None =>
      c.resource != "stand" &&
      (Claim(c.resource, Exclusive) in outer || (c.mode == Shared && Claim(c.resource, Shared) in outer))
  }

  /** Covering is holding the whole stand or every wanted claim. */
  lemma CoversMeaning(outer: seq<Claim>, inner: seq<Claim>)
    ensures Covers(outer, inner) <==> NamesStand(outer) || forall c :: c in inner ==> HeldIn(outer, c)
  {
    StandNamed(outer);
    forall c | c in inner ensures Holds(outer, c) <==> HeldIn(outer, c) {
      HoldsMeaning(outer, c);
    }
  }

  lemma HoldsMeaning(outer: seq<Claim>, c: Claim)
    ensures Holds(outer, c) <==> HeldIn(outer, c)
  {
    forall held | held in outer
      ensures held == Claim(held.resource, Exclusive) || held == Claim(held.resource, Shared)
    {
      EitherMode(held);
    }
    forall h, r ensures Spectrum.Covers(h, r) <==> Outdoes(h, r) {
      OutdoesMeaning(h, r);
    }
  }

  lemma OutdoesMeaning(h: Range, r: Range)
    ensures Spectrum.Covers(h, r) <==> Outdoes(h, r)
  {
  }

  /** Every set of claims covers itself. */
  lemma CoversItself(a: seq<Claim>)
    ensures Covers(a, a)
  {
    if !Whole(a) {
      forall c | c in a ensures Holds(a, c) {
        if Spectrum.Parse(c.resource).Some? {
          InRanges(a, Spectrum.Parse(c.resource).value);
        }
      }
    }
  }

  /** Without the whole stand or exclusive air, covering holds every wanted range in a held one. */
  lemma CoversByRanges(outer: seq<Claim>, inner: seq<Claim>)
    requires Covers(outer, inner) && !NamesStand(outer) && Claim("air", Exclusive) !in outer
    ensures HoldsRanges(Ranges(outer), Ranges(inner))
    ensures forall r :: r in Ranges(inner) ==> exists h :: h in Ranges(outer) && Contains(h, r)
  {
    StandNamed(outer);
    forall r | r in Ranges(inner)
      ensures HoldsNeed(Ranges(outer), r) && HoldsEmission(Ranges(outer), r)
      ensures exists h :: h in Ranges(outer) && Contains(h, r)
    {
      InRanges(inner, r);
      var wanted :| wanted in inner && Spectrum.Parse(wanted.resource) == Some(r);
      assert Holds(outer, wanted) && !HoldsAir(outer);
      var h :| h in Ranges(outer) && Spectrum.Covers(h, r);
      assert Contains(h, r);
    }
  }

  predicate ClaimsAir(claims: seq<Claim>) {
    exists c :: c in claims && c.resource == AIR
  }

  /** Claims made from ranges bring the coarse air claim along. */
  predicate CarriesAir(claims: seq<Claim>) {
    Ranges(claims) == [] || ClaimsAir(claims)
  }

  predicate Contains(held: Range, r: Range) {
    held.low <= r.low && r.high <= held.high
  }

  predicate HoldsNeed(held: seq<Range>, r: Range) {
    r.need == Spectrum.NoNeed
    || exists h :: h in held && Contains(h, r) && Spectrum.NeedRank(h.need) >= Spectrum.NeedRank(r.need)
  }

  predicate HoldsEmission(held: seq<Range>, r: Range) {
    r.emits == Spectrum.Silent
    || exists h :: h in held && Contains(h, r) && Spectrum.EmitsRank(h.emits) >= Spectrum.EmitsRank(r.emits)
  }

  predicate HoldsRanges(held: seq<Range>, wanted: seq<Range>) {
    forall r :: r in wanted ==> HoldsNeed(held, r) && HoldsEmission(held, r)
  }

  /** The two sides order their radio use in the same terms. */
  predicate SameTerms(outer: seq<Claim>, inner: seq<Claim>) {
    || Whole(outer)
    || Ranges(outer) == []
    || (Ranges(inner) != [] && HoldsRanges(Ranges(outer), Ranges(inner)))
    || (Ranges(inner) == [] && !ClaimsAir(inner))
  }

  /** Whatever must wait for `inner` must wait for `outer`. */
  ghost predicate Protects(outer: seq<Claim>, inner: seq<Claim>) {
    forall x :: CarriesAir(x) && Conflict(inner, x) ==> Conflict(outer, x)
  }

  /** Covering claims keep out everything the covered ones do, exactly when both order their radio use
      in the same terms. */
  lemma CoversProtectsIff(outer: seq<Claim>, inner: seq<Claim>)
    requires Covers(outer, inner)
    ensures Protects(outer, inner) <==> SameTerms(outer, inner)
  {
    if SameTerms(outer, inner) {
      forall x | CarriesAir(x) && Conflict(inner, x) ensures Conflict(outer, x) {
        Protected(outer, inner, x);
      }
    } else if Ranges(inner) == [] {
      AirExposed(outer, inner);
    } else {
      var r :| r in Ranges(inner) && !(HoldsNeed(Ranges(outer), r) && HoldsEmission(Ranges(outer), r));
      RangeExposed(outer, inner, r);
    }
  }

  lemma Protected(outer: seq<Claim>, inner: seq<Claim>, x: seq<Claim>)
    requires Covers(outer, inner) && SameTerms(outer, inner)
    requires CarriesAir(x) && Conflict(inner, x)
    ensures Conflict(outer, x)
  {
    if Whole(outer) || Whole(x) {
    } else if RangesConflict(Ranges(inner), Ranges(x)) {
      var r, y :| r in Ranges(inner) && y in Ranges(x) && Spectrum.Conflicts(r, y);
      RangeProtected(outer, inner, x, r, y);
    } else {
      NotWhole(outer, inner);
      var wanted, y :| wanted in inner && y in x && Collide(wanted, y, ByRanges(inner, x));
      ResourceHeld(outer, inner, x, wanted, y);
    }
  }

  lemma NotWhole(outer: seq<Claim>, inner: seq<Claim>)
    requires Covers(outer, inner) && !Whole(outer)
    ensures !Whole(inner)
  {
    NotRanges();
    assert forall c :: c in inner && c.resource == STAND ==> !Holds(outer, c);
  }

  lemma NotRanges()
    ensures Spectrum.Parse(AIR) == None && Spectrum.Parse(STAND) == None
    ensures !Spectrum.IsRange(AIR) && !Spectrum.IsRange(STAND)
  {
    assert Spectrum.PREFIX[1] == 'p' && STAND[1] == 't' && AIR[1] == 'i';
  }

  lemma RangeProtected(outer: seq<Claim>, inner: seq<Claim>, x: seq<Claim>, r: Range, y: Range)
    requires Covers(outer, inner) && SameTerms(outer, inner) && !Whole(outer)
    requires CarriesAir(x)
    requires r in Ranges(inner) && y in Ranges(x) && Spectrum.Conflicts(r, y)
    ensures Conflict(outer, x)
  {
    if Ranges(outer) == [] {
      InRanges(inner, r);
      var wanted :| wanted in inner && Spectrum.Parse(wanted.resource) == Some(r);
      assert Holds(outer, wanted);
      var held :| held in outer && held.resource == AIR && held.mode == Exclusive;
      var air :| air in x && air.resource == AIR;
      NotRanges();
      assert Collide(held, air, ByRanges(outer, x));
    } else {
      HeldConflicts(Ranges(outer), r, y);
      var h :| h in Ranges(outer) && Spectrum.Conflicts(h, y);
    }
  }

  lemma HeldConflicts(held: seq<Range>, r: Range, y: Range)
    requires HoldsNeed(held, r) && HoldsEmission(held, r) && Spectrum.Conflicts(r, y)
    ensures exists h :: h in held && Spectrum.Conflicts(h, y)
  {
    if Spectrum.Excludes(r.need, y.emits) {
      var h :| h in held && Contains(h, r) && Spectrum.NeedRank(h.need) >= Spectrum.NeedRank(r.need);
      assert Spectrum.Conflicts(h, y);
    } else {
      var h :| h in held && Contains(h, r) && Spectrum.EmitsRank(h.emits) >= Spectrum.EmitsRank(r.emits);
      assert Spectrum.Conflicts(h, y);
    }
  }

  /** Claims that are not ranges: `outer` is exposed only where it has ranges and `inner` has none. */
  lemma ResourceHeld(outer: seq<Claim>, inner: seq<Claim>, x: seq<Claim>, wanted: Claim, y: Claim)
    requires Covers(outer, inner) && !Whole(outer)
    requires Ranges(outer) == [] || Ranges(inner) != [] || !ClaimsAir(inner)
    requires wanted in inner && y in x && Collide(wanted, y, ByRanges(inner, x))
    ensures Conflict(outer, x)
  {
    assert Holds(outer, wanted) && Spectrum.Parse(wanted.resource) == None;
    var held :| held in outer && held.resource == wanted.resource
                && (held.mode == Exclusive || wanted.mode == Shared);
    assert Collide(held, y, ByRanges(outer, x));
  }

  /** A range claim beside an air claim. */
  function Radio(r: Range, air: Mode): seq<Claim> {
    [Claim(Spectrum.Resource(r), Shared), Claim(AIR, air)]
  }

  lemma RangesOfRadio(r: Range, air: Mode)
    requires Spectrum.Fits(r)
    ensures Ranges(Radio(r, air)) == [r] && CarriesAir(Radio(r, air)) && !Whole(Radio(r, air))
    ensures Spectrum.IsRange(Spectrum.Resource(r))
  {
    Spectrum.ParseOfResource(r);
    RangesOfPair(Radio(r, air), r);
  }

  lemma RangesOfPair(claims: seq<Claim>, r: Range)
    requires |claims| == 2 && Spectrum.Parse(claims[0].resource) == Some(r) && claims[1].resource == AIR
    ensures Ranges(claims) == [r] && CarriesAir(claims) && !Whole(claims)
  {
    NotRanges();
    RangesOfTwo(claims, Some(r), None);
    assert claims[1] in claims;
    assert claims[0].resource != STAND;
    NotWholePair(claims);
  }

  lemma NotWholePair(claims: seq<Claim>)
    requires |claims| == 2 && claims[0].resource != STAND && claims[1].resource != STAND
    ensures !Whole(claims)
  {
  }

  lemma RangesOfTwo(claims: seq<Claim>, first: Option<Range>, second: Option<Range>)
    requires |claims| == 2
    requires Spectrum.Parse(claims[0].resource) == first && Spectrum.Parse(claims[1].resource) == second
    ensures Ranges(claims) == (if first.Some? then [first.value] else []) + if second.Some? then [second.value] else []
  {
    var rest := claims[1..];
    assert rest[0] == claims[1] && rest[1..] == [];
    assert Ranges(rest) == (if second.Some? then [second.value] else []) + Ranges(rest[1..]);
  }

  /** Claims with ranges ignore the air of other claims with ranges. */
  lemma RadioMisses(outer: seq<Claim>, y: Range, air: Mode)
    requires !Whole(outer) && Ranges(outer) != [] && Spectrum.Fits(y)
    requires forall h :: h in Ranges(outer) ==> !Spectrum.Conflicts(h, y)
    ensures !Conflict(outer, Radio(y, air))
  {
    RangesOfRadio(y, air);
  }

  lemma AirExposed(outer: seq<Claim>, inner: seq<Claim>)
    requires !Whole(outer) && Ranges(outer) != []
    requires Ranges(inner) == [] && ClaimsAir(inner)
    ensures !Protects(outer, inner)
  {
    var x := QuietPeer(outer, inner);
  }

  /** Exclusive air beside a range that disturbs nothing gets past every claim with ranges. */
  lemma QuietPeer(outer: seq<Claim>, inner: seq<Claim>) returns (x: seq<Claim>)
    requires !Whole(outer) && Ranges(outer) != []
    requires Ranges(inner) == [] && ClaimsAir(inner)
    ensures CarriesAir(x) && (forall r :: r in Ranges(x) ==> r.low <= r.high) && Conflict(inner, x)
    ensures !Conflict(outer, x)
  {
    var quiet := Spectrum.Range(0, 0, Spectrum.NoNeed, Spectrum.Silent);
    RadioMisses(outer, quiet, Exclusive);
    RangesOfRadio(quiet, Exclusive);
    x := Radio(quiet, Exclusive);
    var c :| c in inner && c.resource == AIR;
    NotRanges();
    assert x[1] in x && Collide(c, x[1], ByRanges(inner, x));
  }

  /** The use that tells whether `r`'s need, else its emission, is held. Its ends are `r`'s exchanged,
      so that it overlaps only ranges that contain `r`. */
  function Probe(need: bool, r: Range): Range {
    if need then
      Spectrum.Range(r.high, r.low, Spectrum.NoNeed,
                     if r.need == Spectrum.Strict then Spectrum.Normal else Spectrum.Noisy)
    else
      Spectrum.Range(r.high, r.low,
                     if r.emits == Spectrum.Normal then Spectrum.Strict else Spectrum.Tolerant, Spectrum.Silent)
  }

  lemma RangeExposed(outer: seq<Claim>, inner: seq<Claim>, r: Range)
    requires !Whole(outer) && Ranges(outer) != []
    requires r in Ranges(inner) && !(HoldsNeed(Ranges(outer), r) && HoldsEmission(Ranges(outer), r))
    ensures !Protects(outer, inner)
  {
    var y := Probe(!HoldsNeed(Ranges(outer), r), r);
    ProbeMisses(Ranges(outer), r, y);
    RangeFits(inner, r);
    RadioMisses(outer, y, Shared);
    RangesOfRadio(y, Shared);
    var x := Radio(y, Shared);
    assert RangesConflict(Ranges(inner), Ranges(x)) by {
      assert y in Ranges(x);
    }
  }

  lemma ProbeMisses(held: seq<Range>, r: Range, y: Range)
    requires !(HoldsNeed(held, r) && HoldsEmission(held, r)) && y == Probe(!HoldsNeed(held, r), r)
    ensures Spectrum.Conflicts(r, y) && forall h :: h in held ==> !Spectrum.Conflicts(h, y)
  {
    assert forall h :: h in held && Spectrum.Overlaps(h, y) ==> Contains(h, r);
  }

  lemma RangeFits(claims: seq<Claim>, r: Range)
    requires r in Ranges(claims)
    ensures Spectrum.Fits(r)
  {
    InRanges(claims, r);
    var c :| c in claims && Spectrum.Parse(c.resource) == Some(r);
    Spectrum.ParsedFits(c.resource);
  }

  // ------------------------------------------------------ covering among ranges in order

  /** Ranges with their ends in order, as every range made by the stand's own tools has them. */
  predicate InOrder(claims: seq<Claim>) {
    forall r :: r in Ranges(claims) ==> r.low <= r.high
  }

  predicate NeedsAt(held: seq<Range>, need: Spectrum.Need, p: nat) {
    || need == Spectrum.NoNeed
    || exists h :: h in held && Spectrum.At(h, p) && Spectrum.NeedRank(h.need) >= Spectrum.NeedRank(need)
  }

  predicate EmitsAt(held: seq<Range>, emits: Spectrum.Emits, p: nat) {
    || emits == Spectrum.Silent
    || exists h :: h in held && Spectrum.At(h, p) && Spectrum.EmitsRank(h.emits) >= Spectrum.EmitsRank(emits)
  }

  /** At every frequency of every wanted range some held range needs as much, and one emits as much. */
  ghost predicate HoldsEverywhere(held: seq<Range>, wanted: seq<Range>) {
    forall r, p :: r in wanted && Spectrum.At(r, p) ==> NeedsAt(held, r.need, p) && EmitsAt(held, r.emits, p)
  }

  ghost predicate SameTermsInOrder(outer: seq<Claim>, inner: seq<Claim>) {
    || Whole(outer)
    || Ranges(outer) == []
    || (Ranges(inner) != [] && HoldsEverywhere(Ranges(outer), Ranges(inner)))
    || (Ranges(inner) == [] && !ClaimsAir(inner))
  }

  /** Whatever must wait for `inner` must wait for `outer`, among claims with ranges in order. */
  ghost predicate ProtectsInOrder(outer: seq<Claim>, inner: seq<Claim>) {
    forall x :: CarriesAir(x) && InOrder(x) && Conflict(inner, x) ==> Conflict(outer, x)
  }

  /** With ranges in order, covering claims keep out everything the covered ones do exactly when, where
      both carry ranges, they hold each wanted range at every frequency. */
  lemma CoversProtectsInOrderIff(outer: seq<Claim>, inner: seq<Claim>)
    requires Covers(outer, inner) && InOrder(inner)
    ensures ProtectsInOrder(outer, inner) <==> SameTermsInOrder(outer, inner)
  {
    if SameTermsInOrder(outer, inner) {
      forall x | CarriesAir(x) && InOrder(x) && Conflict(inner, x) ensures Conflict(outer, x) {
        ProtectedInOrder(outer, inner, x);
      }
    } else if Ranges(inner) == [] {
      AirExposedInOrder(outer, inner);
    } else {
      var r, p :| r in Ranges(inner) && Spectrum.At(r, p) &&
        !(NeedsAt(Ranges(outer), r.need, p) && EmitsAt(Ranges(outer), r.emits, p));
      PointExposed(outer, inner, r, p);
    }
  }

  lemma ProtectedInOrder(outer: seq<Claim>, inner: seq<Claim>, x: seq<Claim>)
    requires Covers(outer, inner) && SameTermsInOrder(outer, inner) && InOrder(inner)
    requires CarriesAir(x) && InOrder(x) && Conflict(inner, x)
    ensures Conflict(outer, x)
  {
    if Whole(outer) || Whole(x) {
    } else if SameTerms(outer, inner) {
      Protected(outer, inner, x);
    } else if RangesConflict(Ranges(inner), Ranges(x)) {
      var r, y :| r in Ranges(inner) && y in Ranges(x) && Spectrum.Conflicts(r, y);
      PointConflicts(Ranges(outer), r, y, if r.low < y.low then y.low else r.low);
    } else {
      NotWhole(outer, inner);
      var wanted, y :| wanted in inner && y in x && Collide(wanted, y, ByRanges(inner, x));
      ResourceHeld(outer, inner, x, wanted, y);
    }
  }

  lemma PointConflicts(held: seq<Range>, r: Range, y: Range, p: nat)
    requires NeedsAt(held, r.need, p) && EmitsAt(held, r.emits, p) && Spectrum.Conflicts(r, y) && Spectrum.At(y, p)
    ensures exists h :: h in held && Spectrum.Conflicts(h, y)
  {
    if Spectrum.Excludes(r.need, y.emits) {
      var h :| h in held && Spectrum.At(h, p) && Spectrum.NeedRank(h.need) >= Spectrum.NeedRank(r.need);
      assert Spectrum.Conflicts(h, y);
    } else {
      var h :| h in held && Spectrum.At(h, p) && Spectrum.EmitsRank(h.emits) >= Spectrum.EmitsRank(r.emits);
      assert Spectrum.Conflicts(h, y);
    }
  }

  /** A peer at the one frequency `p`. */
  function Peer(need: bool, r: Range, p: nat): Range {
    Probe(need, r).(low := p, high := p)
  }

  lemma PointExposed(outer: seq<Claim>, inner: seq<Claim>, r: Range, p: nat)
    requires !Whole(outer) && Ranges(outer) != []
    requires r in Ranges(inner) && Spectrum.At(r, p)
    requires !(NeedsAt(Ranges(outer), r.need, p) && EmitsAt(Ranges(outer), r.emits, p))
    ensures !ProtectsInOrder(outer, inner)
  {
    var y := Peer(!NeedsAt(Ranges(outer), r.need, p), r, p);
    PeerMisses(Ranges(outer), r, p, y);
    RangeFits(inner, r);
    RadioMisses(outer, y, Shared);
    RangesOfRadio(y, Shared);
    var x := Radio(y, Shared);
    assert RangesConflict(Ranges(inner), Ranges(x)) by {
      assert y in Ranges(x);
    }
  }

  lemma PeerMisses(held: seq<Range>, r: Range, p: nat, y: Range)
    requires Spectrum.At(r, p) && !(NeedsAt(held, r.need, p) && EmitsAt(held, r.emits, p))
    requires y == Peer(!NeedsAt(held, r.need, p), r, p)
    ensures Spectrum.Conflicts(r, y) && forall h :: h in held ==> !Spectrum.Conflicts(h, y)
  {
    assert forall h :: h in held && Spectrum.Overlaps(h, y) ==> Spectrum.At(h, p);
  }

  lemma AirExposedInOrder(outer: seq<Claim>, inner: seq<Claim>)
    requires !Whole(outer) && Ranges(outer) != []
    requires Ranges(inner) == [] && ClaimsAir(inner)
    ensures !ProtectsInOrder(outer, inner)
  {
    var x := QuietPeer(outer, inner);
  }

  // ------------------------------------------------------ what the air shortcut costs

  /** The claims a range is made into: itself and the coarse air claim. */
  function Made(r: Range): seq<Claim> {
    Radio(r, if r.need == Spectrum.Strict || r.emits == Spectrum.Noisy then Exclusive else Shared)
  }

  /** A lease made from a strict range covers work made from another strict range elsewhere, by its
      exclusive air claim, and keeps no transmission out of it. */
  lemma AirShortcutExposes()
    ensures var outer := Made(Spectrum.Range(5, 6, Spectrum.Strict, Spectrum.Silent));
            var inner := Made(Spectrum.Range(1, 2, Spectrum.Strict, Spectrum.Silent));
            var peer := Made(Spectrum.Range(1, 2, Spectrum.NoNeed, Spectrum.Normal));
            Covers(outer, inner) && Conflict(inner, peer) && !Conflict(outer, peer)
  {
    var held := Spectrum.Range(5, 6, Spectrum.Strict, Spectrum.Silent);
    var wanted := Spectrum.Range(1, 2, Spectrum.Strict, Spectrum.Silent);
    var heard := Spectrum.Range(1, 2, Spectrum.NoNeed, Spectrum.Normal);
    ExclusiveAirCovers(held, wanted);
    RangesOfRadio(held, Exclusive);
    RangesOfRadio(wanted, Exclusive);
    RangesOfRadio(heard, Shared);
    RadioMisses(Made(held), heard, Shared);
    assert wanted in Ranges(Made(wanted)) && heard in Ranges(Made(heard));
    assert Spectrum.Conflicts(wanted, heard);
  }

  lemma ExclusiveAirCovers(held: Range, wanted: Range)
    requires Spectrum.Fits(wanted)
    ensures Covers(Radio(held, Exclusive), Radio(wanted, Exclusive))
  {
    var outer, inner := Radio(held, Exclusive), Radio(wanted, Exclusive);
    Spectrum.ParseOfResource(wanted);
    NotRanges();
    assert outer[1] in outer;
    forall c | c in inner ensures Holds(outer, c) {
      assert c == inner[0] || c == inner[1];
    }
  }
}
