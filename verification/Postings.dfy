/**
 Inverted maps from a feature to the set of identifiers that carry it.  The store's
 by-key and by-subject tables, the six posting maps of the subject index and the three
 document indexes of the retriever are all instances.
 */
module Postings {

  /** The posting of `f`, if any, holds `s`. */
  predicate Has<F(==)>(m: map<F, set<string>>, f: F, s: string) {
    f in m && s in m[f]
  }

  /** The posting of `f`; an absent one is empty. */
  function Posting<F(==)>(m: map<F, set<string>>, f: F): set<string> {
    if f in m then m[f] else {}
  }

  ghost predicate NoEmpty<F(!new)>(m: map<F, set<string>>) {
    forall f :: f in m ==> m[f] != {}
  }

  /** The features of one identifier; an absent identifier carries none. */
  function FeatsAt<F>(feats: map<string, set<F>>, s: string): set<F> {
    if s in feats then feats[s] else {}
  }

  /** `m` is the inversion of `feats`, without a single empty posting. */
  ghost predicate Inverts<F(!new)>(m: map<F, set<string>>, feats: map<string, set<F>>) {
    && NoEmpty(m)
    && forall f, s :: Has(m, f, s) <==> f in FeatsAt(feats, s)
  }

  ghost function Carriers<F>(feats: map<string, set<F>>, f: F): set<string> {
    set s | s in feats && f in feats[s]
  }

  ghost function AllFeatures<F>(feats: map<string, set<F>>): set<F> {
    set s, f | s in feats && f in feats[s] :: f
  }

  /** Every feature some identifier carries, with all its carriers. */
  ghost function Inversion<F(!new)>(feats: map<string, set<F>>): map<F, set<string>> {
    map f | f in AllFeatures(feats) :: Carriers(feats, f)
  }

  lemma InversionInverts<F(!new)>(feats: map<string, set<F>>)
    ensures Inverts(Inversion(feats), feats)
  {
    var m := Inversion(feats);
    forall f | f in m ensures m[f] != {} {
      var s :| s in feats && f in feats[s];
      assert s in m[f];
    }
  }

  /** An inversion is determined by what it inverts. */
  lemma InvertsUnique<F(!new)>(p: map<F, set<string>>, q: map<F, set<string>>,
                               feats: map<string, set<F>>)
    requires Inverts(p, feats) && Inverts(q, feats)
    ensures p == q
  {
    forall f | f in p ensures f in q && p[f] == q[f] {
      KeyKept(p, q, feats, f);
      KeyKept(q, p, feats, f);
    }
    forall f | f in q ensures f in p { KeyKept(q, p, feats, f); }
    assert p.Keys == q.Keys;
  }

  lemma KeyKept<F(!new)>(p: map<F, set<string>>, q: map<F, set<string>>,
                         feats: map<string, set<F>>, f: F)
    requires Inverts(p, feats) && Inverts(q, feats) && f in p
    ensures f in q && p[f] <= q[f]
  {
    forall s | s in p[f] ensures Has(q, f, s) {
      assert Has(p, f, s);
    }
    var s :| s in p[f];
    assert Has(q, f, s);
  }

  /** Inversion only looks at the features of each identifier. */
  lemma InvertsExtensional<F(!new)>(m: map<F, set<string>>, feats: map<string, set<F>>,
                                    feats': map<string, set<F>>)
    requires Inverts(m, feats)
    requires forall s :: FeatsAt(feats, s) == FeatsAt(feats', s)
    ensures Inverts(m, feats')
  {
  }

  /** Giving a featureless identifier its one feature, and taking it away again. */
  lemma InvertsOneMore<F(!new)>(m: map<F, set<string>>, m': map<F, set<string>>, f: F, id: string,
                                feats: map<string, set<F>>, feats': map<string, set<F>>)
    requires NoEmpty(m) && NoEmpty(m')
    requires forall t :: FeatsAt(feats', t) == if t == id then {f} else FeatsAt(feats, t)
    requires FeatsAt(feats, id) == {}
    requires forall g, t :: Has(m', g, t) <==> Has(m, g, t) || (g == f && t == id)
    requires !Has(m, f, id)
    ensures Inverts(m, feats) <==> Inverts(m', feats')
  {
    if Inverts(m', feats') {
      forall g, t ensures Has(m, g, t) <==> g in FeatsAt(feats, t) {
        assert Has(m', g, t) <==> g in FeatsAt(feats', t);
      }
    }
  }

  /** Adds `s` to the posting of `key`; reports how many memberships were added. */
  method AddPosting<F(==,!new)>(m: map<F, set<string>>, key: F, s: string)
    returns (m': map<F, set<string>>, n: nat)
    ensures forall f, t :: Has(m', f, t) <==> Has(m, f, t) || (f == key && t == s)
    ensures NoEmpty(m) ==> NoEmpty(m')
    ensures n == if Has(m, key, s) then 0 else 1
  {
    var posting := Posting(m, key);
    if s in posting {
      return m, 0;
    }
    m', n := m[key := posting + {s}], 1;
  }

  /** Removes `s` from the posting of `key`, dropping a posting that becomes empty. */
  method RemovePosting<F(==,!new)>(m: map<F, set<string>>, key: F, s: string)
    returns (m': map<F, set<string>>, n: nat)
    ensures forall f, t :: Has(m', f, t) <==> Has(m, f, t) && !(f == key && t == s)
    ensures NoEmpty(m) ==> NoEmpty(m')
    ensures n == if Has(m, key, s) then 1 else 0
  {
    if key !in m || m[key] == {} || s !in m[key] {
      return m, 0;
    }
    var posting := m[key] - {s};
    m', n := if posting == {} then m - {key} else m[key := posting], 1;
    forall f, t ensures Has(m, f, t) <==> Has(m', f, t) || (f == key && t == s) {
      if f == key && t in m[key] && t != s {
        assert t in posting;
      }
    }
  }

  /** `m'` differs from `m` only in that `s` now sits in exactly the postings `g`. */
  ghost predicate Moved<F(!new)>(m: map<F, set<string>>, m': map<F, set<string>>, s: string,
                                 g: set<F>) {
    && (NoEmpty(m) ==> NoEmpty(m'))
    && forall f, t :: Has(m', f, t) <==> if t == s then f in g else Has(m, f, t)
  }

  /** `s` sits in exactly the postings `g`. */
  ghost predicate Carries<F(!new)>(m: map<F, set<string>>, s: string, g: set<F>) {
    forall f :: Has(m, f, s) <==> f in g
  }

  lemma MovedInverts<F(!new)>(m: map<F, set<string>>, m': map<F, set<string>>, s: string,
                              g: set<F>, feats: map<string, set<F>>)
    requires Inverts(m, feats) && Moved(m, m', s, g)
    ensures Inverts(m', feats[s := g])
  {
  }

  /** The memberships a posting map records, as a set of pairs. */
  ghost function Members<F(!new)>(m: map<F, set<string>>): set<(F, string)> {
    set f, s | f in m && s in m[f] :: (f, s)
  }

  lemma InMembers<F(!new)>(m: map<F, set<string>>, f: F, s: string)
    ensures (f, s) in Members(m) <==> Has(m, f, s)
  {
  }

  ghost function PairedWith<F(!new)>(g: set<F>, s: string): set<(F, string)> {
    set f | f in g :: (f, s)
  }

  lemma {:induction false} PairedSize<F(!new)>(g: set<F>, s: string)
    ensures |PairedWith(g, s)| == |g|
  {
    if f :| f in g {
      PairedSize(g - {f}, s);
      assert PairedWith(g, s) == PairedWith(g - {f}, s) + {(f, s)};
    }
  }

  /** Moving one identifier changes the number of memberships by the size difference. */
  lemma MovedMembers<F(!new)>(m: map<F, set<string>>, m': map<F, set<string>>, s: string, g: set<F>, g': set<F>)
    requires Carries(m, s, g) && Moved(m, m', s, g')
    ensures |Members(m')| + |g - g'| == |Members(m)| + |g' - g|
  {
    var lost, won := PairedWith(g - g', s), PairedWith(g' - g, s);
    forall f, t ensures (f, t) in Members(m') + lost <==> (f, t) in Members(m) + won {
      InMembers(m, f, t);
      InMembers(m', f, t);
    }
    assert Members(m') + lost == Members(m) + won by {
      forall e ensures e in Members(m') + lost <==> e in Members(m) + won {
        assert e == (e.0, e.1);
      }
    }
    assert Members(m') !! lost && Members(m) !! won by {
      forall f ensures (f, s) !in Members(m') || (f, s) !in lost { InMembers(m', f, s); }
      forall f ensures (f, s) !in Members(m) || (f, s) !in won { InMembers(m, f, s); }
    }
    PairedSize(g - g', s);
    PairedSize(g' - g, s);
  }

  /** Removes `s` from each of the given postings, in any order, and counts the removals. */
  method RemoveEach<F(==,!new)>(m: map<F, set<string>>, gone: set<F>, s: string)
    returns (m': map<F, set<string>>, removals: nat)
    requires forall f :: f in gone ==> Has(m, f, s)
    ensures forall f, t :: Has(m', f, t) <==> Has(m, f, t) && !(t == s && f in gone)
    ensures NoEmpty(m) ==> NoEmpty(m')
    ensures removals == |gone|
  {
    m', removals := m, 0;
    var todo := gone;
    while todo != {}
      invariant todo <= gone
      invariant forall f, t :: Has(m', f, t) <==> Has(m, f, t) && !(t == s && f in gone - todo)
      invariant NoEmpty(m) ==> NoEmpty(m')
      invariant removals + |todo| == |gone|
      decreases |todo|
    {
      var f :| f in todo;
      var n;
      m', n := RemovePosting(m', f, s);
      todo := todo - {f};
      removals := removals + n;
    }
  }

  /** Adds `s` to each of the given postings, in any order, and counts the additions. */
  method AddEach<F(==,!new)>(m: map<F, set<string>>, added: set<F>, s: string)
    returns (m': map<F, set<string>>, additions: nat)
    requires forall f :: f in added ==> !Has(m, f, s)
    ensures forall f, t :: Has(m', f, t) <==> Has(m, f, t) || (t == s && f in added)
    ensures NoEmpty(m) ==> NoEmpty(m')
    ensures additions == |added|
  {
    m', additions := m, 0;
    var todo := added;
    while todo != {}
      invariant todo <= added
      invariant forall f, t :: Has(m', f, t) <==> Has(m, f, t) || (t == s && f in added - todo)
      invariant NoEmpty(m) ==> NoEmpty(m')
      invariant additions + |todo| == |added|
      decreases |todo|
    {
      var f :| f in todo;
      var n;
      m', n := AddPosting(m', f, s);
      todo := todo - {f};
      additions := additions + n;
    }
  }

  /** Moves `s` from the features `old` to the features `new` by patching their difference. */
  method Patch<F(==,!new)>(m: map<F, set<string>>, before: set<F>, after: set<F>, s: string)
    returns (m': map<F, set<string>>, additions: nat, removals: nat)
    requires Carries(m, s, before)
    ensures Moved(m, m', s, after)
    ensures additions == |after - before| && removals == |before - after|
  {
    m', removals := RemoveEach(m, before - after, s);
    m', additions := AddEach(m', after - before, s);
  }

  /** The three channels of one posting family, patched one after the other. */
  method PatchThree<F(==,!new)>(m1: map<F, set<string>>, m2: map<F, set<string>>, m3: map<F, set<string>>,
                                o1: set<F>, o2: set<F>, o3: set<F>,
                                n1: set<F>, n2: set<F>, n3: set<F>, s: string)
    returns (m1': map<F, set<string>>, m2': map<F, set<string>>, m3': map<F, set<string>>,
             additions: nat, removals: nat)
    requires Carries(m1, s, o1) && Carries(m2, s, o2) && Carries(m3, s, o3)
    ensures Moved(m1, m1', s, n1) && Moved(m2, m2', s, n2) && Moved(m3, m3', s, n3)
    ensures additions == |n1 - o1| + |n2 - o2| + |n3 - o3|
    ensures removals == |o1 - n1| + |o2 - n2| + |o3 - n3|
  {
    var a, r;
    m1', additions, removals := Patch(m1, o1, n1, s);
    m2', a, r := Patch(m2, o2, n2, s);
    additions, removals := additions + a, removals + r;
    m3', a, r := Patch(m3, o3, n3, s);
    additions, removals := additions + a, removals + r;
  }
}
