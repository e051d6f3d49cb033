/**
 Board matching of `hil/model/src/resources.rs`: Kuhn's augmenting paths over an
 `owner` array, proved to report exactly the needs a maximum matching cannot serve.
 */
module BoardMatching {
  import opened Kuhn
  import opened Wrappers

  datatype BoardRole = Dut | Peer | Observer

  datatype LpClockSource = RcSlow | Xtal32k

  datatype BoardCapability = LpClock(source: LpClockSource) | Ufl

  datatype BoardNeed = BoardNeed(role: BoardRole, chip: string, capabilities: seq<BoardCapability>)

  datatype BoardOffer = BoardOffer(chip: string, roles: seq<BoardRole>, capabilities: seq<BoardCapability>)

  datatype StandOffer = StandOffer(boards: seq<BoardOffer>, fixtures: seq<string>)

  datatype Resources = Resources(boards: seq<BoardNeed>, fixtures: seq<string>)

  datatype Unmet =
    | Board(role: BoardRole, chip: string, missing: seq<BoardCapability>)
    | Fixture(name: string)

  predicate Takes(need: BoardNeed, board: BoardOffer) {
    board.chip == need.chip && need.role in board.roles
  }

  predicate Fits(need: BoardNeed, board: BoardOffer) {
    Takes(need, board) && forall c :: c in need.capabilities ==> c in board.capabilities
  }

  /** For each need, the boards that fit it. */
  ghost function Fitting(needs: seq<BoardNeed>, boards: seq<BoardOffer>): (g: Graph)
    ensures |g| == |needs|
    ensures forall n, b :: 0 <= n < |needs| ==> (b in g[n] <==> 0 <= b < |boards| && Fits(needs[n], boards[b]))
  {
    seq(|needs|, n requires 0 <= n < |needs| => set b: nat | b < |boards| && Fits(needs[n], boards[b]))
  }

  // ------------------------------------------------------- what a board lacks

  /** The capabilities of `wanted`, in order, that `board` does not have. */
  function Lacking(wanted: seq<BoardCapability>, board: BoardOffer): (r: seq<BoardCapability>)
    ensures |r| <= |wanted|
    ensures forall c :: c in r <==> c in wanted && c !in board.capabilities
  {
    if wanted == [] then []
    else if wanted[0] in board.capabilities then Lacking(wanted[1..], board)
    else [wanted[0]] + Lacking(wanted[1..], board)
  }

  /** What each board of the need's chip and role lacks. */
  function Candidates(need: BoardNeed, boards: seq<BoardOffer>): seq<seq<BoardCapability>> {
    if boards == [] then []
    else (if Takes(need, boards[0]) then [Lacking(need.capabilities, boards[0])] else [])
         + Candidates(need, boards[1..])
  }

  /** The first of the shortest lists. */
  function FirstShortest(lists: seq<seq<BoardCapability>>): (r: seq<BoardCapability>)
    requires lists != []
    ensures r in lists && forall l :: l in lists ==> |r| <= |l|
  {
    if |lists| == 1 then lists[0]
    else
      var rest := FirstShortest(lists[1..]);
      if |lists[0]| <= |rest| then lists[0] else rest
  }

  function Missing(need: BoardNeed, boards: seq<BoardOffer>): seq<BoardCapability> {
    var candidates := Candidates(need, boards);
    if candidates == [] then [] else FirstShortest(candidates)
  }

  lemma {:induction false} CandidatesMeaning(need: BoardNeed, boards: seq<BoardOffer>)
    ensures forall l :: l in Candidates(need, boards) <==>
              exists b :: 0 <= b < |boards| && Takes(need, boards[b]) && l == Lacking(need.capabilities, boards[b])
  {
    if boards != [] {
      CandidatesMeaning(need, boards[1..]);
      forall l ensures l in Candidates(need, boards) <==>
              exists b :: 0 <= b < |boards| && Takes(need, boards[b]) && l == Lacking(need.capabilities, boards[b])
      {
        if l in Candidates(need, boards[1..]) {
          var b :| 0 <= b < |boards[1..]| && Takes(need, boards[1..][b]) &&
            l == Lacking(need.capabilities, boards[1..][b]);
          assert boards[b + 1] == boards[1..][b];
        }
        if b :| 0 <= b < |boards| && Takes(need, boards[b]) && l == Lacking(need.capabilities, boards[b]) {
          if b > 0 { assert boards[1..][b - 1] == boards[b]; }
        }
      }
    }
  }

  /** The reported list is empty if and only if the role has no board or one fits outright;
      otherwise it is what some board of the chip and role lacks, and none lacks fewer. */
  lemma MissingMeaning(need: BoardNeed, boards: seq<BoardOffer>)
    ensures Missing(need, boards) == [] <==>
            (forall b :: 0 <= b < |boards| ==> !Takes(need, boards[b]))
            || (exists b :: 0 <= b < |boards| && Fits(need, boards[b]))
    ensures forall b :: 0 <= b < |boards| && Takes(need, boards[b]) ==>
              |Missing(need, boards)| <= |Lacking(need.capabilities, boards[b])|
    ensures (exists b :: 0 <= b < |boards| && Takes(need, boards[b])) ==>
              exists b :: 0 <= b < |boards| && Takes(need, boards[b])
                          && Missing(need, boards) == Lacking(need.capabilities, boards[b])
  {
    CandidatesMeaning(need, boards);
    var candidates := Candidates(need, boards);
    forall b | 0 <= b < |boards| && Takes(need, boards[b])
      ensures Lacking(need.capabilities, boards[b]) in candidates
      ensures Lacking(need.capabilities, boards[b]) == [] <==> Fits(need, boards[b])
    {
      var l := Lacking(need.capabilities, boards[b]);
      assert l != [] ==> l[0] in l;
      assert forall c :: c in l ==> l != [];
    }
    if candidates == [] {
      assert forall b :: 0 <= b < |boards| && Takes(need, boards[b]) ==>
               Lacking(need.capabilities, boards[b]) in candidates;
    } else {
      var l := FirstShortest(candidates);
      assert l in candidates;
    }
  }

  /**
   Kuhn's augmenting path for `need`. On success the boards unseen at entry serve one more
   need, `need`; on failure no owner changed and the boards seen on the way are closed. A
   dead set keeps its owners, and a need confined to one fails.
   */
  method Augment(needs: seq<BoardNeed>, boards: seq<BoardOffer>, need: nat,
                 seen: array<bool>, owner: array<Option<nat>>, ghost dead: set<nat>)
    returns (ok: bool)
    requires need < |needs|
    requires seen.Length == |boards| && owner.Length == |boards|
    requires Matched(Fitting(needs, boards), owner[..], seen[..])
    requires !Serves(owner[..], seen[..], need)
    requires Dead(Fitting(needs, boards), owner[..], dead)
    modifies seen, owner
    ensures Grew(old(seen[..]), seen[..])
    ensures ok ==> Augmented(Fitting(needs, boards), need, old(owner[..]), owner[..], old(seen[..]), dead)
    ensures !ok ==> owner[..] == old(owner[..])
    ensures !ok ==> Confined(Fitting(needs, boards), need, Seen(seen[..]))
    ensures !ok ==> Closed(Fitting(needs, boards), owner[..], old(seen[..]), seen[..])
    ensures Confined(Fitting(needs, boards), need, dead) ==> !ok
    decreases |Unseen(seen[..])|
  {
    ghost var was, wasSeen := owner[..], seen[..];
    for board := 0 to |boards|
      invariant owner[..] == was
      invariant Grew(wasSeen, seen[..])
      invariant forall b :: 0 <= b < board && Fits(needs[need], boards[b]) ==> seen[b]
      invariant Closed(Fitting(needs, boards), was, wasSeen, seen[..])
    {
      if seen[board] || !Fits(needs[need], boards[board]) {
        continue;
      }
      ghost var before := seen[..];
      seen[board] := true;
      ghost var marked := seen[..];
      assert marked == before[board := true];
      assert owner[..] == was && owner[board] == was[board];
      var free := true;
      if owner[board].Some? {
        MarkingShrinks(wasSeen, marked, board);
        EvictedIsUnserved(Fitting(needs, boards), was, wasSeen, marked, board);
        free := Augment(needs, boards, owner[board].value, seen, owner, dead);
      }
      if free {
        ghost var moved := owner[..];
        AugmentedThrough(Fitting(needs, boards), need, board, was, moved, wasSeen, marked, dead);
        owner[board] := Some(need);
        assert owner[..] == moved[board := Some(need)];
        return true;
      }
      ClosedGrows(Fitting(needs, boards), was, wasSeen, before, board, seen[..]);
    }
    return false;
  }

  // ------------------------------------------------------ the report

  ghost function UnmetBoards(needs: seq<BoardNeed>, boards: seq<BoardOffer>, count: nat): seq<Unmet>
    requires count <= |needs|
  {
    if count == 0 then []
    else UnmetBoards(needs, boards, count - 1)
         + (if Unservable(Fitting(needs, boards), count - 1)
            then [Board(needs[count - 1].role, needs[count - 1].chip, Missing(needs[count - 1], boards))]
            else [])
  }

  function UnmetFixtures(wanted: seq<string>, offered: seq<string>): seq<Unmet> {
    if wanted == [] then []
    else (if wanted[0] in offered then [] else [Fixture(wanted[0])]) + UnmetFixtures(wanted[1..], offered)
  }

  /** The board part of `Resources::unmet`. */
  method UnmetNeeds(needs: seq<BoardNeed>, boards: seq<BoardOffer>) returns (unmet: seq<Unmet>)
    ensures unmet == UnmetBoards(needs, boards, |needs|)
    ensures IsMaximum(Fitting(needs, boards), |needs|, |needs| - |unmet|)
  {
    var owner := new Option<nat>[|boards|](_ => None);
    unmet := [];
    ghost var g := Fitting(needs, boards);
    ghost var failed: set<nat>, dead: set<nat> := {}, {};
    StartProgress(g, owner[..]);
    for index := 0 to |needs|
      invariant fresh(owner) && owner.Length == |boards|
      invariant Progress(g, owner[..], index, failed, dead)
      invariant unmet == UnmetBoards(needs, boards, index) && |unmet| == |failed|
    {
      ReportNext(needs, boards, index);
      var ok;
      ok, failed, dead := Serve(needs, boards, index, owner, failed, dead);
      if !ok {
        unmet := unmet + [Board(needs[index].role, needs[index].chip, Missing(needs[index], boards))];
      }
    }
    MaximumAt(g, owner[..], |needs|, failed, dead, |needs| - |unmet|);
  }

  lemma ReportNext(needs: seq<BoardNeed>, boards: seq<BoardOffer>, index: nat)
    requires index < |needs|
    ensures UnmetBoards(needs, boards, index + 1) == UnmetBoards(needs, boards, index)
            + (if Unservable(Fitting(needs, boards), index)
               then [Board(needs[index].role, needs[index].chip, Missing(needs[index], boards))] else [])
  {
  }

  /** One iteration of `Resources::unmet`: a search for need `index` over unseen boards. */
  method Serve(needs: seq<BoardNeed>, boards: seq<BoardOffer>, index: nat, owner: array<Option<nat>>,
               ghost failed: set<nat>, ghost dead: set<nat>)
    returns (ok: bool, ghost unserved: set<nat>, ghost grown: set<nat>)
    requires index < |needs| && owner.Length == |boards|
    requires Progress(Fitting(needs, boards), owner[..], index, failed, dead)
    modifies owner
    ensures Progress(Fitting(needs, boards), owner[..], index + 1, unserved, grown)
    ensures ok == !Unservable(Fitting(needs, boards), index)
    ensures |unserved| == |failed| + if ok then 0 else 1
  {
    var seen := new bool[|boards|](_ => false);
    assert seen[..] == NoneSeen(|boards|);
    ghost var was := owner[..];
    assert Progress(Fitting(needs, boards), was, index, failed, dead);
    ok := Augment(needs, boards, index, seen, owner, dead);
    if ok {
      SuccessProgress(Fitting(needs, boards), was, owner[..], index, failed, dead);
      Servable(Fitting(needs, boards), was, owner[..], index, failed, dead);
      unserved, grown := failed, dead;
    } else {
      unserved, grown := failed + {index}, dead + Seen(seen[..]);
      AddCard(failed, index);
      FailureProgress(Fitting(needs, boards), was, index, failed, dead, seen[..]);
      IsUnservable(Fitting(needs, boards), was, index, failed, dead, grown);
    }
  }

  /** `Resources::unmet`: a report for each need that adds nothing to a maximum matching of the
      needs before it, then the fixtures the stand lacks. */
  method UnmetOf(resources: Resources, stand: StandOffer) returns (unmet: seq<Unmet>)
    ensures unmet == UnmetBoards(resources.boards, stand.boards, |resources.boards|)
                     + UnmetFixtures(resources.fixtures, stand.fixtures)
    ensures IsMaximum(Fitting(resources.boards, stand.boards), |resources.boards|,
                      |resources.boards| - |UnmetBoards(resources.boards, stand.boards, |resources.boards|)|)
    ensures unmet == [] <==> Runnable(resources, stand)
  {
    var boards := UnmetNeeds(resources.boards, stand.boards);
    var fixtures := LackedFixtures(resources.fixtures, stand.fixtures);
    NothingUnmetIffRunnable(resources, stand, |boards|);
    unmet := boards + fixtures;
  }

  method LackedFixtures(wanted: seq<string>, offered: seq<string>) returns (unmet: seq<Unmet>)
    ensures unmet == UnmetFixtures(wanted, offered)
  {
    unmet := [];
    for index := 0 to |wanted|
      invariant unmet + UnmetFixtures(wanted[index..], offered) == UnmetFixtures(wanted, offered)
    {
      if wanted[index] !in offered {
        unmet := unmet + [Fixture(wanted[index])];
      }
    }
  }

  lemma {:induction false} UnmetFixturesMeaning(wanted: seq<string>, offered: seq<string>)
    ensures UnmetFixtures(wanted, offered) == [] <==> forall f :: f in wanted ==> f in offered
    ensures forall f :: Fixture(f) in UnmetFixtures(wanted, offered) <==> f in wanted && f !in offered
  {
    if wanted != [] {
      UnmetFixturesMeaning(wanted[1..], offered);
      assert wanted == [wanted[0]] + wanted[1..];
    }
  }

  /** Every need has its own fitting board and every fixture is offered. */
  ghost predicate Runnable(resources: Resources, stand: StandOffer) {
    && (exists m :: IsMatching(Fitting(resources.boards, stand.boards), |resources.boards|, m)
                    && m.Keys == Below(|resources.boards|))
    && forall f :: f in resources.fixtures ==> f in stand.fixtures
  }

  /** A scenario can run if every need has a board of its own, of its chip, in its role and with all its
      capabilities, and every fixture is there. */
  lemma RunnableMeaning(resources: Resources, stand: StandOffer)
    ensures Runnable(resources, stand) <==>
            (exists m: map<nat, nat> :: Assigns(m, resources.boards, stand.boards)) &&
            forall f :: f in resources.fixtures ==> f in stand.fixtures
  {
    if m: map<nat, nat> :| Assigns(m, resources.boards, stand.boards) {
      AssignedIsMatching(m, resources.boards, stand.boards);
    }
    var g, count := Fitting(resources.boards, stand.boards), |resources.boards|;
    if m: map<nat, nat> :| IsMatching(g, count, m) && m.Keys == Below(count) {
      MatchingIsAssigned(m, resources.boards, stand.boards);
    }
  }

  ghost predicate Assigns(m: map<nat, nat>, needs: seq<BoardNeed>, boards: seq<BoardOffer>) {
    && (forall n :: n in m <==> 0 <= n < |needs|)
    && (forall n, k :: n in m && k in m && m[n] == m[k] ==> n == k)
    && (forall n :: n in m ==> m[n] < |boards| && Suits(needs[n], boards[m[n]]))
  }

  ghost predicate Suits(need: BoardNeed, board: BoardOffer) {
    && need.chip == board.chip
    && (exists r :: r in board.roles && r == need.role)
    && (forall c :: c in need.capabilities ==> exists k :: 0 <= k < |board.capabilities| && board.capabilities[k] == c)
  }

  lemma SuitsMeaning(need: BoardNeed, board: BoardOffer)
    ensures Suits(need, board) <==> Fits(need, board)
  {
  }

  lemma {:induction false} AssignedIsMatching(m: map<nat, nat>, needs: seq<BoardNeed>, boards: seq<BoardOffer>)
    requires Assigns(m, needs, boards)
    ensures IsMatching(Fitting(needs, boards), |needs|, m) && m.Keys == Below(|needs|)
  {
    forall n | n in m ensures m[n] in Fitting(needs, boards)[n] {
      FittingSuits(needs, boards, n, m[n]);
    }
  }

  lemma {:induction false} MatchingIsAssigned(m: map<nat, nat>, needs: seq<BoardNeed>, boards: seq<BoardOffer>)
    requires IsMatching(Fitting(needs, boards), |needs|, m) && m.Keys == Below(|needs|)
    ensures Assigns(m, needs, boards)
  {
    BelowDomain(m, |needs|);
    forall n | n in m ensures m[n] < |boards| && Suits(needs[n], boards[m[n]]) {
      MatchedSuits(m, needs, boards, n);
    }
  }

  lemma BelowDomain(m: map<nat, nat>, count: nat)
    ensures m.Keys == Below(count) <==> forall n :: n in m <==> 0 <= n < count
  {
  }

  lemma MatchedSuits(m: map<nat, nat>, needs: seq<BoardNeed>, boards: seq<BoardOffer>, n: nat)
    requires IsMatching(Fitting(needs, boards), |needs|, m) && n in m
    ensures n < |needs| && m[n] < |boards| && Suits(needs[n], boards[m[n]])
  {
    FittingSuits(needs, boards, n, m[n]);
  }

  lemma FittingSuits(needs: seq<BoardNeed>, boards: seq<BoardOffer>, n: nat, b: nat)
    requires n < |needs|
    ensures b in Fitting(needs, boards)[n] <==> b < |boards| && Suits(needs[n], boards[b])
  {
    if b < |boards| {
      SuitsMeaning(needs[n], boards[b]);
    }
  }

  lemma NothingUnmetIffRunnable(resources: Resources, stand: StandOffer, boards: nat)
    requires IsMaximum(Fitting(resources.boards, stand.boards), |resources.boards|, |resources.boards| - boards)
    ensures boards == 0 && UnmetFixtures(resources.fixtures, stand.fixtures) == [] <==> Runnable(resources, stand)
  {
    AllServedIffAssignable(Fitting(resources.boards, stand.boards), |resources.boards| - boards);
    UnmetFixturesMeaning(resources.fixtures, stand.fixtures);
  }
}
