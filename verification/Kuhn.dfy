/**
 The theory behind Kuhn's algorithm on a bipartite graph of needs and boards: what one
 augmenting path does to the owners, and the Hall violator that a failed search leaves.
 */
module Kuhn {
  import opened Sets
  import opened Wrappers

  /** For each need, the boards that fit it. */
  type Graph = seq<set<nat>>

  type Owner = seq<Option<nat>>

  /** `m` gives some of the first `count` needs distinct fitting boards. */
  ghost predicate IsMatching(g: Graph, count: nat, m: map<nat, nat>)
    requires count <= |g|
  {
    && (forall n :: n in m ==> n < count && m[n] in g[n])
    && (forall n, k :: n in m && k in m && m[n] == m[k] ==> n == k)
  }

  /** `size` is the size of a maximum matching of the first `count` needs. */
  ghost predicate IsMaximum(g: Graph, count: nat, size: int)
    requires count <= |g|
  {
    && (exists m :: IsMatching(g, count, m) && |m| == size)
    && (forall m :: IsMatching(g, count, m) ==> |m| <= size)
  }

  /** The stand serves no more of the first `n + 1` needs than of the first `n`. */
  ghost predicate Unservable(g: Graph, n: nat)
    requires n < |g|
  {
    exists size :: IsMaximum(g, n, size) && IsMaximum(g, n + 1, size)
  }

  /** A board outside `seen` is owned by need `n`. */
  ghost predicate Serves(owner: Owner, seen: seq<bool>, n: nat)
    requires |seen| == |owner|
  {
    exists b :: 0 <= b < |owner| && !seen[b] && owner[b] == Some(n)
  }

  /** The boards outside `seen` are owned by distinct needs they fit. */
  ghost predicate Matched(g: Graph, owner: Owner, seen: seq<bool>)
    requires |seen| == |owner|
  {
    && (forall b :: 0 <= b < |owner| && !seen[b] && owner[b].Some? ==>
          owner[b].value < |g| && b in g[owner[b].value])
    && (forall b, c :: 0 <= b < |owner| && 0 <= c < |owner| && !seen[b] && !seen[c] && owner[b].Some? &&
          owner[b] == owner[c]
          ==> b == c)
  }

  /** Every board need `n` fits is in `within`. */
  ghost predicate Confined(g: Graph, n: nat, within: set<nat>) {
    n < |g| && g[n] <= within
  }

  /** A closed set of owned boards: their owners fit no board outside it. */
  ghost predicate Dead(g: Graph, owner: Owner, dead: set<nat>)
  {
    forall b :: b in dead ==> b < |owner| && owner[b].Some? && Confined(g, owner[b].value, dead)
  }

  ghost function Seen(seen: seq<bool>): set<nat> {
    set b: nat | b < |seen| && seen[b]
  }

  ghost function Unseen(seen: seq<bool>): set<nat> {
    set b: nat | b < |seen| && !seen[b]
  }

  ghost predicate Grew(seen: seq<bool>, more: seq<bool>) {
    |seen| == |more| && forall b :: 0 <= b < |seen| && seen[b] ==> more[b]
  }

  /** The boards `more` adds to `seen` are owned by needs that fit no board outside `more`. */
  ghost predicate Closed(g: Graph, owner: Owner, seen: seq<bool>, more: seq<bool>)
    requires |owner| == |seen| == |more|
  {
    forall b :: 0 <= b < |owner| && more[b] && !seen[b] ==>
      owner[b].Some? && Confined(g, owner[b].value, Seen(more))
  }

  lemma MarkingShrinks(seen: seq<bool>, more: seq<bool>, b: nat)
    requires Grew(seen, more) && b < |seen| && !seen[b] && more[b]
    ensures |Unseen(more)| < |Unseen(seen)|
  {
    SubsetSize(Unseen(more), Unseen(seen) - {b});
  }

  lemma ClosedGrows(g: Graph, owner: Owner,
                    seen: seq<bool>, before: seq<bool>, board: nat, after: seq<bool>)
    requires |owner| == |seen| == |before| == |after| && board < |owner|
    requires Closed(g, owner, seen, before)
    requires Grew(before[board := true], after)
    requires Closed(g, owner, before[board := true], after)
    requires owner[board].Some? && Confined(g, owner[board].value, Seen(after))
    ensures Closed(g, owner, seen, after)
  {
    assert Seen(before) <= Seen(after);
  }

  /** What a successful search from `need` does to the owners. */
  ghost predicate Augmented(g: Graph, need: nat,
                            was: Owner, now: Owner, seen: seq<bool>, dead: set<nat>)
    requires |was| == |now| == |seen|
  {
    && Matched(g, now, seen)
    && (forall n: nat :: Serves(now, seen, n) <==> Serves(was, seen, n) || n == need)
    && (forall b :: 0 <= b < |was| && (seen[b] || b in dead) ==> now[b] == was[b])
  }

  /** The owner of a board about to be taken over is served by no other unseen board. */
  lemma EvictedIsUnserved(g: Graph, owner: Owner,
                          seen: seq<bool>, marked: seq<bool>, board: nat)
    requires |owner| == |seen| && board < |owner| && !seen[board] && owner[board].Some?
    requires Matched(g, owner, seen) && Grew(seen, marked) && marked[board]
    ensures Matched(g, owner, marked)
    ensures !Serves(owner, marked, owner[board].value)
  {
  }

  /** Taking `board` for `need` once its owner, if any, moved to another board. */
  lemma AugmentedThrough(g: Graph, need: nat, board: nat,
                         was: Owner, moved: Owner, seen: seq<bool>, marked: seq<bool>, dead: set<nat>)
    requires need < |g| && board < |was| == |moved| == |seen| == |marked|
    requires board in g[need]
    requires !seen[board] && marked[board] && Grew(seen, marked)
    requires Matched(g, was, seen) && !Serves(was, seen, need)
    requires Dead(g, was, dead)
    requires if was[board].None? then moved == was
             else Augmented(g, was[board].value, was, moved, marked, dead)
                  && !Confined(g, was[board].value, dead)
    ensures Augmented(g, need, was, moved[board := Some(need)], seen, dead)
    ensures board !in dead
  {
    var now := moved[board := Some(need)];
    forall b | 0 <= b < |was| && !seen[b] && b != board && moved[b].Some?
      ensures moved[b].value < |g| && b in g[moved[b].value]
      ensures Serves(was, seen, moved[b].value)
      ensures forall c :: 0 <= c < |was| && !seen[c] && c != board && moved[c] == moved[b] ==> c == b
    {
      MovedOwner(g, board, was, moved, seen, marked, dead, b);
    }
    forall n: nat ensures Serves(now, seen, n) <==> Serves(was, seen, n) || n == need {
      assert now[board] == Some(need);
      if Serves(was, seen, n) {
        StillServed(g, need, board, was, moved, seen, marked, dead, n);
      }
      if Serves(now, seen, n) && n != need {
        var b :| 0 <= b < |now| && !seen[b] && now[b] == Some(n);
        assert b != board && moved[b] == Some(n);
      }
    }
  }

  /** Every other unseen board keeps a need of its own that was served before. */
  lemma MovedOwner(g: Graph, board: nat,
                   was: Owner, moved: Owner, seen: seq<bool>, marked: seq<bool>, dead: set<nat>, b: nat)
    requires board < |was| == |moved| == |seen| == |marked|
    requires !seen[board] && marked[board] && Grew(seen, marked)
    requires Matched(g, was, seen)
    requires if was[board].None? then moved == was
             else Augmented(g, was[board].value, was, moved, marked, dead)
    requires b < |was| && !seen[b] && b != board && moved[b].Some?
    ensures moved[b].value < |g| && b in g[moved[b].value]
    ensures Serves(was, seen, moved[b].value)
    ensures forall c :: 0 <= c < |was| && !seen[c] && c != board && moved[c] == moved[b] ==> c == b
  {
    var n := moved[b].value;
    if was[board].Some? {
      if marked[b] {
        assert was[b] == Some(n);
        assert !Serves(was, marked, n) && was[board] != Some(n);
        assert !Serves(moved, marked, n);
      } else {
        assert Serves(moved, marked, n);
        assert Serves(was, marked, n) || was[board] == Some(n);
        assert Serves(was, seen, n);
        forall c | 0 <= c < |was| && !seen[c] && c != board && moved[c] == moved[b] ensures c == b {
          assert !marked[c];
        }
      }
    }
  }

  lemma StillServed(g: Graph, need: nat, board: nat,
                    was: Owner, moved: Owner, seen: seq<bool>, marked: seq<bool>, dead: set<nat>, n: nat)
    requires board < |was| == |moved| == |seen| == |marked|
    requires !seen[board] && marked[board] && Grew(seen, marked)
    requires Matched(g, was, seen)
    requires if was[board].None? then moved == was
             else Augmented(g, was[board].value, was, moved, marked, dead)
    requires Serves(was, seen, n)
    ensures Serves(moved[board := Some(need)], seen, n)
  {
    var now := moved[board := Some(need)];
    var b :| 0 <= b < |was| && !seen[b] && was[b] == Some(n);
    if was[board].Some? && (b == board || !marked[b]) {
      assert Serves(was, marked, n) || was[board] == Some(n);
      var c :| 0 <= c < |moved| && !marked[c] && moved[c] == Some(n);
      assert now[c] == Some(n);
    } else {
      assert now[b] == Some(n);
    }
  }

  /** The first `count` needs but `failed` are served, and `failed` is confined to a dead set. */
  ghost predicate Progress(g: Graph, owner: Owner,
                           count: nat, failed: set<nat>, dead: set<nat>)
  {
    && count <= |g|
    && Matched(g, owner, NoneSeen(|owner|))
    && (forall n: nat :: Serves(owner, NoneSeen(|owner|), n) <==> n < count && n !in failed)
    && Dead(g, owner, dead)
    && (forall n :: n in failed ==> n < count && Confined(g, n, dead))
  }

  ghost function NoneSeen(count: nat): seq<bool> {
    seq(count, _ => false)
  }

  ghost function Below(count: nat): (s: set<nat>)
    ensures forall n :: n in s <==> 0 <= n < count
    ensures |s| == count
  {
    if count == 0 then {} else Below(count - 1) + {count - 1}
  }

  ghost function Image(m: map<nat, nat>, keys: set<nat>): set<nat>
    requires keys <= m.Keys
  {
    set n | n in keys :: m[n]
  }

  lemma {:induction false} ImageCard(m: map<nat, nat>, keys: set<nat>)
    requires keys <= m.Keys
    requires forall n, k :: n in keys && k in keys && m[n] == m[k] ==> n == k
    ensures |Image(m, keys)| == |keys|
  {
    if keys != {} {
      var n :| n in keys;
      ImageCard(m, keys - {n});
      assert Image(m, keys) == Image(m, keys - {n}) + {m[n]};
    } else {
      assert Image(m, keys) == {};
    }
  }

  ghost function OwnerMap(owner: Owner, dead: set<nat>): map<nat, nat>
    requires forall b :: b in dead ==> b < |owner| && owner[b].Some?
  {
    map b | b in dead :: owner[b].value
  }

  /** The owners of a dead set: as many needs as boards, all served and confined to it. */
  lemma StuckNeeds(g: Graph, owner: Owner,
                   count: nat, failed: set<nat>, dead: set<nat>) returns (stuck: set<nat>)
    requires Progress(g, owner, count, failed, dead)
    ensures |stuck| == |dead| && stuck !! failed
    ensures forall n :: n in stuck ==> n < count && Confined(g, n, dead)
  {
    var owners := OwnerMap(owner, dead);
    assert owners.Keys == dead;
    stuck := Image(owners, dead);
    ImageCard(owners, dead);
    forall n | n in stuck ensures n < count && n !in failed && Confined(g, n, dead) {
      var b :| b in dead && owners[b] == n;
      assert owner[b] == Some(n);
      assert Serves(owner, NoneSeen(|owner|), n);
    }
  }

  /** A set of needs confined to fewer boards cannot all be matched. */
  lemma ConfinedBound(g: Graph, count: nat,
                      confined: set<nat>, dead: set<nat>, m: map<nat, nat>)
    requires count <= |g| && IsMatching(g, count, m)
    requires confined <= Below(count)
    requires forall n :: n in confined ==> Confined(g, n, dead)
    ensures |m| <= |dead| + count - |confined|
  {
    var held := m.Keys * confined;
    ImageCard(m, held);
    CountBound(m.Keys, confined, Below(count), Image(m, held), dead);
    assert |m| == |m.Keys|;
  }

  lemma CountBound(keys: set<nat>, confined: set<nat>, all: set<nat>, image: set<nat>, dead: set<nat>)
    requires keys <= all && confined <= all && image <= dead && |image| == |keys * confined|
    ensures |keys| <= |dead| + |all| - |confined|
  {
    SubsetSize(image, dead);
    SplitCard(keys, confined);
    SplitCard(all, confined);
    assert all * confined == confined;
    SubsetSize(keys - confined, all - confined);
  }

  lemma SplitCard(s: set<nat>, part: set<nat>)
    ensures |s| == |s * part| + |s - part|
  {
    assert s == s * part + (s - part);
  }

  /** No matching serves more than all of the needs but `failed`: the Hall violator bound. */
  lemma HallBound(g: Graph, owner: Owner,
                  count: nat, failed: set<nat>, dead: set<nat>, m: map<nat, nat>)
    requires Progress(g, owner, count, failed, dead)
    requires IsMatching(g, count, m)
    ensures |m| <= count - |failed|
  {
    var stuck := StuckNeeds(g, owner, count, failed, dead);
    ConfinedBound(g, count, stuck + failed, dead, m);
  }

  /** The owners themselves are a matching of that size. */
  lemma OwnersMatch(g: Graph, owner: Owner,
                    count: nat, failed: set<nat>, dead: set<nat>) returns (m: map<nat, nat>)
    requires Progress(g, owner, count, failed, dead)
    ensures IsMatching(g, count, m) && |m| == count - |failed|
  {
    var served := Below(count) - failed;
    assert failed <= Below(count);
    assert |served| == count - |failed|;
    assert forall n :: n in served ==> Serves(owner, NoneSeen(|owner|), n);
    m := map n | n in served :: BoardOf(owner, n);
    assert m.Keys == served;
    assert |m| == |m.Keys|;
  }

  ghost function BoardOf(owner: Owner, n: nat): (b: nat)
    requires Serves(owner, NoneSeen(|owner|), n)
    ensures b < |owner| && owner[b] == Some(n)
  {
    var b: nat :| b < |owner| && owner[b] == Some(n);
    b
  }

  lemma MaximumAt(g: Graph, owner: Owner,
                  count: nat, failed: set<nat>, dead: set<nat>, size: int)
    requires Progress(g, owner, count, failed, dead)
    requires size == count - |failed|
    ensures IsMaximum(g, count, size)
  {
    var m := OwnersMatch(g, owner, count, failed, dead);
    forall m | IsMatching(g, count, m) ensures |m| <= size {
      HallBound(g, owner, count, failed, dead, m);
    }
  }

  lemma MaximumUnique(g: Graph, count: nat, a: int, b: int)
    requires count <= |g|
    requires IsMaximum(g, count, a) && IsMaximum(g, count, b)
    ensures a == b
  {
    var m :| IsMatching(g, count, m) && |m| == a;
    var k :| IsMatching(g, count, k) && |k| == b;
  }

  lemma SuccessProgress(g: Graph, was: Owner, now: Owner,
                        index: nat, failed: set<nat>, dead: set<nat>)
    requires |was| == |now| && index < |g|
    requires Progress(g, was, index, failed, dead)
    requires Augmented(g, index, was, now, NoneSeen(|was|), dead)
    ensures Progress(g, now, index + 1, failed, dead)
  {
  }

  lemma Servable(g: Graph, was: Owner, now: Owner,
                 index: nat, failed: set<nat>, dead: set<nat>)
    requires |was| == |now| && index < |g|
    requires Progress(g, was, index, failed, dead)
    requires Progress(g, now, index + 1, failed, dead)
    ensures !Unservable(g, index)
  {
    var size := index - |failed|;
    MaximumAt(g, was, index, failed, dead, size);
    MaximumAt(g, now, index + 1, failed, dead, size + 1);
    ServableWhenLarger(g, index, size);
  }

  lemma FailureProgress(g: Graph, owner: Owner,
                        index: nat, failed: set<nat>, dead: set<nat>, seen: seq<bool>)
    requires |owner| == |seen| && index < |g|
    requires Progress(g, owner, index, failed, dead)
    requires Closed(g, owner, NoneSeen(|owner|), seen)
    requires Confined(g, index, Seen(seen))
    ensures Progress(g, owner, index + 1, failed + {index}, dead + Seen(seen))
    ensures index !in failed
  {
  }

  lemma IsUnservable(g: Graph, owner: Owner,
                     index: nat, failed: set<nat>, dead: set<nat>, more: set<nat>)
    requires index < |g| && index !in failed
    requires Progress(g, owner, index, failed, dead)
    requires Progress(g, owner, index + 1, failed + {index}, more)
    ensures Unservable(g, index)
  {
    AddCard(failed, index);
    var size := index - |failed|;
    MaximumAt(g, owner, index, failed, dead, size);
    MaximumAt(g, owner, index + 1, failed + {index}, more, size);
  }

  lemma AddCard(s: set<nat>, n: nat)
    requires n !in s
    ensures |s + {n}| == |s| + 1
  {
  }

  lemma StartProgress(g: Graph, owner: Owner)
    requires forall b :: 0 <= b < |owner| ==> owner[b].None?
    ensures Progress(g, owner, 0, {}, {})
  {
  }

  lemma ServableWhenLarger(g: Graph, n: nat, size: int)
    requires n < |g|
    requires IsMaximum(g, n, size) && IsMaximum(g, n + 1, size + 1)
    ensures !Unservable(g, n)
  {
    forall other | IsMaximum(g, n, other)
      ensures other == size
    {
      MaximumUnique(g, n, size, other);
    }
    var m :| IsMatching(g, n + 1, m) && |m| == size + 1;
  }

  /** All needs are served by a maximum matching exactly when some matching serves them all. */
  lemma AllServedIffAssignable(g: Graph, size: int)
    requires IsMaximum(g, |g|, size)
    ensures size == |g| <==> exists m :: IsMatching(g, |g|, m) && m.Keys == Below(|g|)
  {
    if size == |g| {
      var m :| IsMatching(g, |g|, m) && |m| == |g|;
      assert |m| == |m.Keys|;
      FullSubset(m.Keys, Below(|g|));
    }
    if m :| IsMatching(g, |g|, m) && m.Keys == Below(|g|) {
      assert |m| == |m.Keys|;
      SizeBounded(g, size);
    }
  }

  lemma SizeBounded(g: Graph, size: int)
    requires IsMaximum(g, |g|, size)
    ensures size <= |g|
  {
    var m :| IsMatching(g, |g|, m) && |m| == size;
    SubsetSize(m.Keys, Below(|g|));
    assert |m| == |m.Keys|;
  }

  lemma {:induction false} FullSubset(a: set<nat>, b: set<nat>)
    requires a <= b && |a| == |b|
    ensures a == b
  {
    SplitCard(b, a);
    assert b * a == a;
  }
}
