/**
 Every sort in the program orders identifiers by a number first and by the identifier
 second.  `Ranked` is that listing; it is the only one, so any two ways of producing it
 agree.
 */
module Ranking {
  import opened Prelude

  /** The number recorded for `x`, zero if there is none. */
  function At(rank: map<string, real>, x: string): real {
    if x in rank then rank[x] else 0.0
  }

  predicate Before(rank: map<string, real>, a: string, b: string) {
    At(rank, a) < At(rank, b) || (At(rank, a) == At(rank, b) && StrLess(a, b))
  }

  lemma BeforeTotal(rank: map<string, real>, a: string, b: string)
    ensures a == b || Before(rank, a, b) || Before(rank, b, a)
  {
    StrTotal(a, b);
  }

  lemma BeforeTransitive(rank: map<string, real>, a: string, b: string, c: string)
    requires Before(rank, a, b) && Before(rank, b, c)
    ensures Before(rank, a, c)
  {
    if At(rank, a) == At(rank, b) == At(rank, c) {
      StrTransitive(a, b, c);
    }
  }

  lemma BeforeIrreflexive(rank: map<string, real>, a: string)
    ensures !Before(rank, a, a)
  {
    StrIrreflexive(a);
  }

  /** `r` lists the members of `ids`, each once, in strictly increasing rank order. */
  ghost predicate IsRanked(r: seq<string>, ids: set<string>, rank: map<string, real>) {
    && (forall x :: x in r <==> x in ids)
    && (forall i, j :: 0 <= i < j < |r| ==> Before(rank, r[i], r[j]))
  }

  ghost predicate IsLeast(x: string, ids: set<string>, rank: map<string, real>) {
    x in ids && forall y :: y in ids && y != x ==> Before(rank, x, y)
  }

  lemma {:induction false} HasLeast(ids: set<string>, rank: map<string, real>)
    requires ids != {}
    ensures exists x :: IsLeast(x, ids, rank)
  {
    var a :| a in ids;
    if ids == {a} {
      assert IsLeast(a, ids, rank);
    } else {
      var rest := ids - {a};
      HasLeast(rest, rank);
      var b :| IsLeast(b, rest, rank);
      BeforeTotal(rank, a, b);
      if Before(rank, a, b) {
        forall y | y in ids && y != a ensures Before(rank, a, y) {
          if y != b { BeforeTransitive(rank, a, b, y); }
        }
        assert IsLeast(a, ids, rank);
      } else {
        assert IsLeast(b, ids, rank);
      }
    }
  }

  lemma LeastUnique(x: string, y: string, ids: set<string>, rank: map<string, real>)
    requires IsLeast(x, ids, rank) && IsLeast(y, ids, rank)
    ensures x == y
  {
    if x != y {
      BeforeTransitive(rank, x, y, x);
      BeforeIrreflexive(rank, x);
    }
  }

  ghost function Least(ids: set<string>, rank: map<string, real>): (x: string)
    requires ids != {}
    ensures IsLeast(x, ids, rank)
  {
    HasLeast(ids, rank);
    var x :| IsLeast(x, ids, rank);
    x
  }

  ghost function Ranked(ids: set<string>, rank: map<string, real>): (r: seq<string>)
    ensures IsRanked(r, ids, rank)
    ensures |r| == |ids|
  {
    if ids == {} then [] else
      var x := Least(ids, rank);
      ConsRanked(x, Ranked(ids - {x}, rank), ids, rank);
      [x] + Ranked(ids - {x}, rank)
  }

  lemma ConsRanked(x: string, rest: seq<string>, ids: set<string>, rank: map<string, real>)
    requires IsLeast(x, ids, rank) && IsRanked(rest, ids - {x}, rank)
    ensures IsRanked([x] + rest, ids, rank)
  {
    hide Before;
    var r := [x] + rest;
    forall y ensures y in r <==> y in ids {
      assert y in rest <==> y in ids - {x};
    }
    forall i, j | 0 <= i < j < |r| ensures Before(rank, r[i], r[j]) {
      assert r[j] == rest[j - 1] && r[j] in rest;
    }
  }

  /** A listing in rank order is determined by what it lists. */
  lemma {:induction false} RankedUnique(r: seq<string>, ids: set<string>, rank: map<string, real>)
    requires IsRanked(r, ids, rank)
    ensures r == Ranked(ids, rank)
  {
    if r == [] {
      forall x ensures x !in ids { assert x !in r; }
      assert ids == {};
    } else {
      var x, rest := r[0], r[1..];
      assert x in r;
      forall y | y in ids && y != x ensures Before(rank, x, y) {
        assert y in r;
        var k :| 0 <= k < |r| && r[k] == y;
      }
      assert IsLeast(x, ids, rank);
      LeastUnique(x, Least(ids, rank), ids, rank);
      forall y ensures y in rest <==> y in ids - {x} {
        RankedTail(r, ids, rank, y);
      }
      RankedUnique(rest, ids - {x}, rank);
    }
  }

  lemma RankedTail(r: seq<string>, ids: set<string>, rank: map<string, real>, y: string)
    requires IsRanked(r, ids, rank) && r != []
    ensures y in r[1..] <==> y in ids - {r[0]}
  {
    BeforeIrreflexive(rank, r[0]);
    if y in r[1..] {
      var k :| 0 <= k < |r[1..]| && r[1..][k] == y;
      assert r[k + 1] == y;
      assert y in r;
    }
    if y in ids - {r[0]} {
      assert y in r;
      var k :| 0 <= k < |r| && r[k] == y;
      assert r[1..][k - 1] == y;
    }
  }

  lemma RankedStep(done: seq<string>, ids: set<string>, x: string, rank: map<string, real>)
    requires IsLeast(x, ids, rank)
    ensures done + Ranked(ids, rank) == done + [x] + Ranked(ids - {x}, rank)
  {
    hide Before, IsRanked;
    LeastUnique(x, Least(ids, rank), ids, rank);
    assert Ranked(ids, rank) == [x] + Ranked(ids - {x}, rank);
  }

  /** A listing without ranks is the strictly alphabetical one. */
  lemma AlphabeticalExactly(r: seq<string>, ids: set<string>)
    ensures r == Ranked(ids, map[]) <==>
            (forall x :: x in r <==> x in ids) && forall i, j :: 0 <= i < j < |r| ==> StrLess(r[i], r[j])
  {
    hide Ranked, StrLess;
    if (forall x :: x in r <==> x in ids) && forall i, j :: 0 <= i < j < |r| ==> StrLess(r[i], r[j]) {
      forall i, j | 0 <= i < j < |r| ensures Before(map[], r[i], r[j]) {
      }
      RankedUnique(r, ids, map[]);
    }
    if r == Ranked(ids, map[]) {
      forall i, j | 0 <= i < j < |r| ensures StrLess(r[i], r[j]) {
        assert Before(map[], r[i], r[j]);
      }
    }
  }

  /** Lists a set by rank, equal ranks by id. */
  method SortIds(ids: set<string>, rank: map<string, real>) returns (r: seq<string>)
    ensures r == Ranked(ids, rank)
  {
    r := [];
    var todo := ids;
    while todo != {}
      invariant Ranked(ids, rank) == r + Ranked(todo, rank)
      decreases |todo|
    {
      var x := FindLeast(todo, rank);
      RankedStep(r, todo, x, rank);
      r := r + [x];
      todo := todo - {x};
    }
  }

  method FindLeast(ids: set<string>, rank: map<string, real>) returns (x: string)
    requires ids != {}
    ensures IsLeast(x, ids, rank)
  {
    x :| x in ids;
    var todo := ids - {x};
    while todo != {}
      invariant x in ids && x !in todo && todo <= ids
      invariant forall y :: y in ids - todo && y != x ==> Before(rank, x, y)
      decreases |todo|
    {
      var y :| y in todo;
      BeforeTotal(rank, x, y);
      todo := todo - {y};
      if !Before(rank, x, y) {
        forall z | z in ids - todo && z != y ensures Before(rank, y, z) {
          if z != x { BeforeTransitive(rank, y, x, z); }
        }
        x := y;
      }
    }
  }

  /** The members of a ranked listing are pairwise different. */
  lemma RankedDistinct(r: seq<string>, ids: set<string>, rank: map<string, real>, i: nat, j: nat)
    requires IsRanked(r, ids, rank) && i < j < |r|
    ensures r[i] != r[j]
  {
    BeforeIrreflexive(rank, r[i]);
  }

  /** The first `n` elements, or all if there are fewer. */
  function Take<T>(r: seq<T>, n: nat): (t: seq<T>)
    ensures t <= r && |t| == Min(n, |r|)
  {
    if n <= |r| then r[..n] else r
  }

  function Negated(scores: map<string, real>): (m: map<string, real>)
    ensures m.Keys == scores.Keys
    ensures forall x :: At(m, x) == -At(scores, x)
  {
    map x | x in scores :: -scores[x]
  }

  lemma TakeMember<T>(r: seq<T>, n: nat, i: nat)
    requires i < |r|
    ensures i < n ==> r[i] in Take(r, n)
  {
    if i < n {
      assert Take(r, n)[i] == r[i];
    }
  }

  /** What a truncated ranking keeps precedes everything it drops. */
  lemma TopPrecedes(ids: set<string>, rank: map<string, real>, n: nat, x: string, y: string)
    requires x in Take(Ranked(ids, rank), n)
    requires y in ids && y !in Take(Ranked(ids, rank), n)
    ensures Before(rank, x, y)
  {
    var r := Ranked(ids, rank);
    var i :| 0 <= i < |Take(r, n)| && Take(r, n)[i] == x;
    assert y in r;
    var j :| 0 <= j < |r| && r[j] == y;
    TakeMember(r, n, j);
    assert r[i] == x;
  }

  ghost function Elements(r: seq<string>): set<string> {
    set x | x in r
  }

  /** The members among the first `n` entries of a listing. */
  ghost function First(r: seq<string>, n: nat): set<string>
    requires n <= |r|
  {
    set k | 0 <= k < n :: r[k]
  }

  /** Walking a listing meets a new member each time, and every member by the end. */
  lemma FirstStep(ids: set<string>, rank: map<string, real>, n: nat)
    requires n < |ids|
    ensures var r := Ranked(ids, rank);
            && r[n] in ids && r[n] !in First(r, n)
            && First(r, n + 1) == First(r, n) + {r[n]}
  {
    hide Ranked, Before;
    var r := Ranked(ids, rank);
    assert r[n] in r;
    forall k | 0 <= k < n ensures r[k] != r[n] {
      RankedDistinct(r, ids, rank, k, n);
    }
  }

  lemma FirstAll(ids: set<string>, rank: map<string, real>)
    ensures First(Ranked(ids, rank), 0) == {} && First(Ranked(ids, rank), |ids|) == ids
  {
    hide Ranked, Before;
    var r := Ranked(ids, rank);
    forall x ensures x in First(r, |ids|) <==> x in ids {
      assert x in r <==> x in ids;
      if x in r {
        var k :| 0 <= k < |r| && r[k] == x;
      }
    }
  }
}
