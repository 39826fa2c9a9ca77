/**
 Evidence-to-subject reference counts.  A reference is one position of one assertion's
 evidence tuple, so a tuple that names the same evidence twice holds two references.
 */
module References {
  import opened Models

  datatype Reference = Reference(assertionId: string, position: nat, evidenceId: string,
                                 subjectId: string)

  type RefCounts = map<string, map<string, int>>

  ghost function ReferencesOf(assertions: map<string, Assertion>): set<Reference> {
    set id, i | id in assertions && 0 <= i < |assertions[id].evidenceIds| ::
      Reference(id, i, assertions[id].evidenceIds[i], assertions[id].subjectId)
  }

  /** The references of one assertion from position `from` up to position `to`. */
  ghost function Window(item: Assertion, from: nat, to: nat): set<Reference>
    requires from <= to <= |item.evidenceIds|
  {
    set i | from <= i < to :: Reference(item.id, i, item.evidenceIds[i], item.subjectId)
  }

  ghost function Between(refs: set<Reference>, e: string, s: string): set<Reference> {
    set r | r in refs && r.evidenceId == e && r.subjectId == s
  }

  /** How often subject `s` is counted under evidence `e`. */
  function Count(counts: RefCounts, e: string, s: string): int {
    if e in counts && s in counts[e] then counts[e][s] else 0
  }

  /** No zero counts and no empty inner tables. */
  ghost predicate Tidy(counts: RefCounts) {
    forall e :: e in counts ==> counts[e] != map[] && forall s :: s in counts[e] ==> counts[e][s] > 0
  }

  ghost predicate CountsMatch(counts: RefCounts, refs: set<Reference>) {
    && Tidy(counts)
    && forall e, s :: Count(counts, e, s) == |Between(refs, e, s)|
  }

  lemma CountsUnique(c: RefCounts, d: RefCounts, refs: set<Reference>)
    requires CountsMatch(c, refs) && CountsMatch(d, refs)
    ensures c == d
  {
    forall e | e in c ensures e in d && c[e] == d[e] {
      RowKept(c, d, refs, e);
      RowKept(d, c, refs, e);
    }
    forall e | e in d ensures e in c { RowKept(d, c, refs, e); }
  }

  lemma RowKept(c: RefCounts, d: RefCounts, refs: set<Reference>, e: string)
    requires CountsMatch(c, refs) && CountsMatch(d, refs) && e in c
    ensures e in d && forall s :: s in c[e] ==> s in d[e] && d[e][s] == c[e][s]
  {
    forall s | s in c[e] ensures e in d && s in d[e] && d[e][s] == c[e][s] {
      assert Count(c, e, s) > 0;
      assert Count(d, e, s) == Count(c, e, s);
    }
    var s :| s in c[e];
    assert e in d;
  }

  /** A subject is listed under an evidence id exactly when one of its assertions cites it. */
  lemma CountedIffCited(counts: RefCounts, assertions: map<string, Assertion>, e: string, s: string)
    requires CountsMatch(counts, ReferencesOf(assertions))
    ensures e in counts && s in counts[e] <==>
            exists id :: id in assertions && assertions[id].subjectId == s && e in assertions[id].evidenceIds
  {
    var refs := Between(ReferencesOf(assertions), e, s);
    if e in counts && s in counts[e] {
      assert Count(counts, e, s) > 0;
      assert refs != {};
      var r :| r in refs;
      assert r.assertionId in assertions && e in assertions[r.assertionId].evidenceIds;
    }
    if id :| id in assertions && assertions[id].subjectId == s && e in assertions[id].evidenceIds {
      var i :| 0 <= i < |assertions[id].evidenceIds| && assertions[id].evidenceIds[i] == e;
      assert Reference(id, i, e, s) in refs;
      assert Count(counts, e, s) > 0;
    }
  }

  lemma WithRow(counts: RefCounts, e: string, row: map<string, int>)
    requires Tidy(counts) && forall s :: s in row ==> row[s] > 0
    ensures var counts' := if row == map[] then counts - {e} else counts[e := row];
            && Tidy(counts')
            && forall f, t :: Count(counts', f, t) ==
                 if f == e then (if t in row then row[t] else 0) else Count(counts, f, t)
  {
    var counts' := if row == map[] then counts - {e} else counts[e := row];
    forall f | f in counts' ensures counts'[f] != map[] && forall s :: s in counts'[f] ==> counts'[f][s] > 0 {
      assert f == e || (f in counts && counts'[f] == counts[f]);
    }
    forall f, t ensures Count(counts', f, t) ==
                        if f == e then (if t in row then row[t] else 0) else Count(counts, f, t) {
      assert row == map[] ==> t !in row;
      assert f != e && f in counts ==> f in counts' && counts'[f] == counts[f];
    }
  }

  /** Counts one more reference, creating missing rows and entries. */
  method Increment(counts: RefCounts, ghost refs: set<Reference>, ghost r: Reference,
                   e: string, s: string)
    returns (counts': RefCounts)
    requires CountsMatch(counts, refs) && r !in refs && r.evidenceId == e && r.subjectId == s
    ensures CountsMatch(counts', refs + {r})
  {
    var row: map<string, int> := if e in counts then counts[e] else map[];
    assert Count(counts, e, s) == |Between(refs, e, s)|;
    row := row[s := Count(counts, e, s) + 1];
    counts' := counts[e := row];
    assert s in row;
    WithRow(counts, e, row);
    forall f, t ensures Count(counts', f, t) == |Between(refs + {r}, f, t)| {
      BetweenAdd(refs, r, f, t);
      assert Count(counts, f, t) == |Between(refs, f, t)|;
    }
  }

  /** Uncounts one reference; a count that reaches zero goes, and so does a row that becomes empty. */
  method Decrement(counts: RefCounts, ghost refs: set<Reference>, ghost r: Reference,
                   e: string, s: string)
    returns (counts': RefCounts)
    requires CountsMatch(counts, refs + {r}) && r !in refs && r.evidenceId == e && r.subjectId == s
    ensures CountsMatch(counts', refs)
  {
    BetweenAdd(refs, r, e, s);
    assert Count(counts, e, s) == |Between(refs, e, s)| + 1;
    if e !in counts {
      return counts;
    }
    var count := Count(counts, e, s);
    var row := if count <= 1 then counts[e] - {s} else counts[e][s := count - 1];
    counts' := if row == map[] then counts - {e} else counts[e := row];
    WithRow(counts, e, row);
    forall f, t ensures Count(counts', f, t) == |Between(refs, f, t)| {
      BetweenAdd(refs, r, f, t);
      assert Count(counts, f, t) == |Between(refs + {r}, f, t)|;
    }
  }

  lemma BetweenAdd(refs: set<Reference>, r: Reference, e: string, s: string)
    requires r !in refs
    ensures |Between(refs + {r}, e, s)| ==
            |Between(refs, e, s)| + if r.evidenceId == e && r.subjectId == s then 1 else 0
  {
    if r.evidenceId == e && r.subjectId == s {
      assert Between(refs + {r}, e, s) == Between(refs, e, s) + {r};
    } else {
      assert Between(refs + {r}, e, s) == Between(refs, e, s);
    }
  }

  lemma ReferencesAdd(others: map<string, Assertion>, item: Assertion)
    requires item.id !in others
    ensures ReferencesOf(others[item.id := item]) ==
            ReferencesOf(others) + Window(item, 0, |item.evidenceIds|)
    ensures forall r :: r in ReferencesOf(others) ==> r.assertionId != item.id
  {
    var both := others[item.id := item];
    forall r ensures r in ReferencesOf(both) <==>
                     r in ReferencesOf(others) + Window(item, 0, |item.evidenceIds|) {
      var id, i := r.assertionId, r.position;
      if r in ReferencesOf(others) {
        assert id in both && both[id] == others[id];
      }
      if r in Window(item, 0, |item.evidenceIds|) {
        assert both[item.id] == item;
      }
      if r in ReferencesOf(both) && id != item.id {
        assert both[id] == others[id];
      }
    }
  }

  lemma NoWindow(item: Assertion, i: nat)
    requires i <= |item.evidenceIds|
    ensures Window(item, i, i) == {}
  {
  }

  lemma WindowEnds(item: Assertion, from: nat, to: nat)
    requires from < to <= |item.evidenceIds|
    ensures var first := Reference(item.id, from, item.evidenceIds[from], item.subjectId);
            Window(item, from, to) == {first} + Window(item, from + 1, to) && first !in Window(item, from + 1, to)
    ensures var last := Reference(item.id, to - 1, item.evidenceIds[to - 1], item.subjectId);
            Window(item, from, to) == Window(item, from, to - 1) + {last} && last !in Window(item, from, to - 1)
    ensures forall r :: r in Window(item, from, to) ==> r.assertionId == item.id
  {
  }

  /** Counts every reference of one assertion. */
  method IncrementAll(counts: RefCounts, item: Assertion, ghost others: map<string, Assertion>)
    returns (counts': RefCounts)
    requires item.id !in others && CountsMatch(counts, ReferencesOf(others))
    ensures CountsMatch(counts', ReferencesOf(others[item.id := item]))
  {
    hide ReferencesOf, CountsMatch, Window;
    counts' := counts;
    ReferencesAdd(others, item);
    ghost var base := ReferencesOf(others);
    var i := 0;
    NoWindow(item, 0);
    assert base + Window(item, 0, 0) == base;
    while i < |item.evidenceIds|
      invariant i <= |item.evidenceIds|
      invariant CountsMatch(counts', base + Window(item, 0, i))
    {
      ghost var r := Reference(item.id, i, item.evidenceIds[i], item.subjectId);
      WindowEnds(item, 0, i + 1);
      assert base + Window(item, 0, i + 1) == base + Window(item, 0, i) + {r};
      counts' := Increment(counts', base + Window(item, 0, i), r, item.evidenceIds[i], item.subjectId);
      i := i + 1;
    }
  }

  /** Uncounts every reference of one assertion. */
  method DecrementAll(counts: RefCounts, item: Assertion, ghost others: map<string, Assertion>)
    returns (counts': RefCounts)
    requires item.id !in others && CountsMatch(counts, ReferencesOf(others[item.id := item]))
    ensures CountsMatch(counts', ReferencesOf(others))
  {
    hide ReferencesOf, CountsMatch, Window;
    counts' := counts;
    ReferencesAdd(others, item);
    ghost var base := ReferencesOf(others);
    ghost var n := |item.evidenceIds|;
    var i := 0;
    while i < |item.evidenceIds|
      invariant i <= n
      invariant CountsMatch(counts', base + Window(item, i, n))
    {
      ghost var r := Reference(item.id, i, item.evidenceIds[i], item.subjectId);
      ghost var rest := base + Window(item, i + 1, n);
      WindowEnds(item, i, n);
      assert base + Window(item, i, n) == rest + {r};
      counts' := Decrement(counts', rest, r, item.evidenceIds[i], item.subjectId);
      i := i + 1;
    }
    NoWindow(item, n);
    assert base + Window(item, n, n) == base;
  }
}
