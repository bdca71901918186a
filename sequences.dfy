/** Row selection, column projection and de-duplication over ordered
    sequences: the pandas boolean mask `df[mask]`, a column `df[c]`,
    `explode` and `unique`, restated on `seq`. */
module Sequences {

  predicate NoDuplicates<T(==)>(s: seq<T>) {
    forall i, j :: 0 <= i < j < |s| ==> s[i] != s[j]
  }

  // ---------------------------------------------------------------------
  // Boolean-mask selection.

  /** The elements of `s` that satisfy `p`, in their original order. */
  function Select<T>(s: seq<T>, p: T -> bool): (r: seq<T>)
    ensures |r| <= |s|
    ensures forall k :: 0 <= k < |r| ==> p(r[k])
    ensures forall i :: 0 <= i < |s| && p(s[i]) ==> s[i] in r
  {
    if s == [] then []
    else
      var init, last := s[..|s| - 1], s[|s| - 1];
      assert forall i :: 0 <= i < |init| ==> init[i] == s[i];
      Select(init, p) + (if p(last) then [last] else [])
  }

  /** A value satisfying `p` is selected as often as it occurs; any
      other value is not selected at all. */
  lemma {:induction false} SelectOccurrences<T>(s: seq<T>, p: T -> bool, x: T)
    ensures multiset(Select(s, p))[x] == if p(x) then multiset(s)[x] else 0
  {
    if s != [] {
      var init, last := s[..|s| - 1], s[|s| - 1];
      assert s == init + [last];
      SelectOccurrences(init, p, x);
    }
  }

  /** The positions of `s` whose element satisfies `p`, ascending. */
  function Positions<T>(s: seq<T>, p: T -> bool): (idx: seq<nat>)
    ensures forall k :: 0 <= k < |idx| ==> idx[k] < |s|
    ensures forall k, l :: 0 <= k < l < |idx| ==> idx[k] < idx[l]
    ensures forall i :: 0 <= i < |s| ==> (p(s[i]) <==> i in idx)
  {
    if s == [] then []
    else
      var init := s[..|s| - 1];
      assert forall i :: 0 <= i < |init| ==> init[i] == s[i];
      Positions(init, p) + (if p(s[|s| - 1]) then [|s| - 1] else [])
  }

  /** The mask keeps exactly the rows at `Positions(s, p)`, in order. */
  lemma {:induction false} SelectAtPositions<T>(s: seq<T>, p: T -> bool)
    ensures |Positions(s, p)| == |Select(s, p)|
    ensures forall k :: 0 <= k < |Select(s, p)| ==> Select(s, p)[k] == s[Positions(s, p)[k]]
  {
    if s != [] {
      var init, last := s[..|s| - 1], s[|s| - 1];
      SelectAtPositions(init, p);
      var idx0, r0 := Positions(init, p), Select(init, p);
      var idx, r := Positions(s, p), Select(s, p);
      assert idx == idx0 + (if p(last) then [|s| - 1] else []);
      assert r == r0 + (if p(last) then [last] else []);
      forall k | 0 <= k < |r| ensures r[k] == s[idx[k]] {
        if k < |r0| {
          assert r[k] == r0[k] && idx[k] == idx0[k];
          assert r0[k] == init[idx0[k]] == s[idx0[k]];
        } else {
          assert r[k] == last && idx[k] == |s| - 1;
        }
      }
    }
  }

  /** Selection from a concatenation is the concatenation of the
      selections: a mask keeps relative order. */
  lemma {:induction false} SelectConcat<T>(a: seq<T>, b: seq<T>, p: T -> bool)
    ensures Select(a + b, p) == Select(a, p) + Select(b, p)
  {
    if b != [] {
      var init := b[..|b| - 1];
      assert (a + b)[..|a + b| - 1] == a + init;
      SelectConcat(a, init, p);
    } else {
      assert a + b == a;
    }
  }

  /** The first element selected is the first element of `s` that
      satisfies `p`. */
  lemma {:induction false} SelectFirst<T>(s: seq<T>, p: T -> bool)
    requires Select(s, p) != []
    ensures exists i :: 0 <= i < |s| && s[i] == Select(s, p)[0] && p(s[i])
              && forall j :: 0 <= j < i ==> !p(s[j])
  {
    var init, last := s[..|s| - 1], s[|s| - 1];
    var r0 := Select(init, p);
    assert Select(s, p) == r0 + (if p(last) then [last] else []);
    if r0 == [] {
      assert forall j :: 0 <= j < |init| ==> !p(init[j]);
      var i := |s| - 1;
      assert s[i] == Select(s, p)[0] && p(s[i]);
      assert forall j :: 0 <= j < i ==> s[j] == init[j];
    } else {
      SelectFirst(init, p);
      var i :| 0 <= i < |init| && init[i] == r0[0] && p(init[i]) && forall j :: 0 <= j < i ==> !p(init[j]);
      assert s[i] == init[i] && Select(s, p)[0] == r0[0];
      assert forall j :: 0 <= j < i ==> s[j] == init[j];
    }
  }

  /** The first row the mask "column `f` equals `v`" keeps is the row of
      the first occurrence of `v` in that column. */
  lemma SelectFirstIndex<T, K>(s: seq<T>, f: T -> K, v: K)
    requires v in Project(s, f)
    ensures Select(s, Matches(f, v)) != []
    ensures Select(s, Matches(f, v))[0] == s[FirstIndex(Project(s, f), v)]
  {
    var col, sel := Project(s, f), Select(s, Matches(f, v));
    var i := FirstIndex(col, v);
    assert sel != [] by {
      assert Matches(f, v)(s[i]);
    }
    SelectFirst(s, Matches(f, v));
    var j :| 0 <= j < |s| && s[j] == sel[0] && Matches(f, v)(s[j])
             && forall l :: 0 <= l < j ==> !Matches(f, v)(s[l]);
    assert Matches(f, v)(s[i]);
    assert !(i < j);
    assert col[j] == v;
    assert !(j < i);
  }

  /** Selecting with a predicate no element meets gives nothing. */
  lemma {:induction false} SelectNone<T>(s: seq<T>, p: T -> bool)
    requires forall i :: 0 <= i < |s| ==> !p(s[i])
    ensures Select(s, p) == []
  {
    if s != [] {
      SelectNone(s[..|s| - 1], p);
    }
  }

  /** A mask selects nothing exactly when no element satisfies it. */
  lemma SelectEmpty<T>(s: seq<T>, p: T -> bool)
    ensures Select(s, p) == [] <==> forall i :: 0 <= i < |s| ==> !p(s[i])
  {
    if forall i :: 0 <= i < |s| ==> !p(s[i]) {
      SelectNone(s, p);
    }
  }

  // ---------------------------------------------------------------------
  // Columns.

  /** The column `f` of the rows `s`. */
  function Project<T, K>(s: seq<T>, f: T -> K): (r: seq<K>)
    ensures |r| == |s| && forall i :: 0 <= i < |s| ==> r[i] == f(s[i])
  {
    if s == [] then [] else Project(s[..|s| - 1], f) + [f(s[|s| - 1])]
  }

  /** The mask "column `f` equals `v`". */
  function Matches<T, K(==)>(f: T -> K, v: K): T -> bool {
    x => f(x) == v
  }

  function Always<T>(x: T): bool { true }

  /** How often `v` occurs in a column is the number of rows the mask
      "column equals `v`" selects. */
  lemma {:induction false} OccurrencesAreMatches<T, K>(s: seq<T>, f: T -> K, v: K)
    ensures multiset(Project(s, f))[v] == |Select(s, Matches(f, v))|
  {
    if s != [] {
      var init := s[..|s| - 1];
      OccurrencesAreMatches(init, f, v);
      assert Project(s, f) == Project(init, f) + [f(s[|s| - 1])];
    }
  }

  /** A mask every element passes keeps everything. */
  lemma {:induction false} SelectAll<T>(s: seq<T>, p: T -> bool)
    requires forall i :: 0 <= i < |s| ==> p(s[i])
    ensures Select(s, p) == s
  {
    if s != [] {
      SelectAll(s[..|s| - 1], p);
    }
  }

  lemma SelectAlways<T>(s: seq<T>)
    ensures Select(s, Always) == s
  {
    SelectAll(s, Always);
  }

  /** Two masks applied one after the other are their conjunction. */
  lemma {:induction false} SelectSelect<T>(s: seq<T>, p: T -> bool, q: T -> bool, pq: T -> bool)
    requires forall x :: pq(x) == (p(x) && q(x))
    ensures Select(Select(s, p), q) == Select(s, pq)
  {
    if s != [] {
      var init, last := s[..|s| - 1], s[|s| - 1];
      SelectSelect(init, p, q, pq);
      SelectConcat(Select(init, p), if p(last) then [last] else [], q);
    }
  }

  // ---------------------------------------------------------------------
  // explode: a column of lists becomes one list, row by row.

  function Flatten<T(!new)>(ss: seq<seq<T>>): (r: seq<T>)
    ensures forall x :: x in r <==> exists i :: 0 <= i < |ss| && x in ss[i]
  {
    if ss == [] then []
    else
      var init := ss[..|ss| - 1];
      assert forall i :: 0 <= i < |init| ==> init[i] == ss[i];
      Flatten(init) + ss[|ss| - 1]
  }

  /** `explode` keeps the rows' order: flattening two blocks of rows is
      flattening the first block, then the second. */
  lemma {:induction false} FlattenConcat<T(!new)>(a: seq<seq<T>>, b: seq<seq<T>>)
    ensures Flatten(a + b) == Flatten(a) + Flatten(b)
  {
    if b == [] {
      assert a + b == a;
    } else {
      var init := b[..|b| - 1];
      assert (a + b)[..|a + b| - 1] == a + init;
      FlattenConcat(a, init);
    }
  }

  /** A single row's list explodes to that list, in its own order. */
  lemma FlattenSingle<T(!new)>(x: seq<T>)
    ensures Flatten([x]) == x
  {
    assert [x][..0] == [];
  }

  /** A value is in the flattened column `f` exactly when it is in `f`
      of one of the rows. */
  lemma FlattenProject<T, K(!new)>(rows: seq<T>, f: T -> seq<K>, x: K)
    ensures x in Flatten(Project(rows, f)) <==> exists i :: 0 <= i < |rows| && x in f(rows[i])
  {
    var ss := Project(rows, f);
    if x in Flatten(ss) {
      var i :| 0 <= i < |ss| && x in ss[i];
      assert x in f(rows[i]);
    }
    if exists i :: 0 <= i < |rows| && x in f(rows[i]) {
      var i :| 0 <= i < |rows| && x in f(rows[i]);
      assert x in ss[i];
    }
  }

  // ---------------------------------------------------------------------
  // unique: distinct values in first-seen order.

  /** The position of the first occurrence of `x` in `s`. */
  function FirstIndex<T(==)>(s: seq<T>, x: T): (i: nat)
    requires x in s
    ensures i < |s| && s[i] == x && forall j :: 0 <= j < i ==> s[j] != x
  {
    if s[0] == x then 0 else 1 + FirstIndex(s[1..], x)
  }

  function Dedup<T(==,!new)>(s: seq<T>): (r: seq<T>)
    ensures NoDuplicates(r)
    ensures forall x :: x in r <==> x in s
    ensures |r| <= |s|
  {
    if s == [] then []
    else
      var d, last := Dedup(s[..|s| - 1]), s[|s| - 1];
      assert s == s[..|s| - 1] + [last];
      if last in d then d else d + [last]
  }

  lemma {:induction false} FirstIndexPrefix<T>(a: seq<T>, b: seq<T>, x: T)
    requires x in a
    ensures FirstIndex(a + b, x) == FirstIndex(a, x)
  {
    if a[0] != x {
      assert (a + b)[1..] == a[1..] + b;
      FirstIndexPrefix(a[1..], b, x);
    }
  }

  /** `unique` keeps the order in which values are first seen. */
  lemma {:induction false} DedupFirstSeen<T(!new)>(s: seq<T>)
    ensures forall i, j :: 0 <= i < j < |Dedup(s)| ==>
              FirstIndex(s, Dedup(s)[i]) < FirstIndex(s, Dedup(s)[j])
  {
    if s != [] {
      var init, last := s[..|s| - 1], s[|s| - 1];
      var d := Dedup(init);
      DedupFirstSeen(init);
      assert s == init + [last];
      forall x | x in init ensures FirstIndex(s, x) == FirstIndex(init, x) {
        FirstIndexPrefix(init, [last], x);
      }
      if last !in d {
        assert last !in init;
        assert FirstIndex(s, last) == |init|;
      }
    }
  }

  /** A sequence without duplicates has as many elements as its set. */
  lemma {:induction false} DistinctCardinality<T>(s: seq<T>)
    requires NoDuplicates(s)
    ensures |set x | x in s| == |s|
  {
    if s != [] {
      var init, last := s[..|s| - 1], s[|s| - 1];
      DistinctCardinality(init);
      assert (set x | x in s) == (set x | x in init) + {last};
      assert last !in (set x | x in init);
    }
  }

  /** The number of distinct values of `s` is the length of `Dedup(s)`. */
  lemma DedupCardinality<T(!new)>(s: seq<T>)
    ensures |Dedup(s)| == |set x | x in s|
  {
    DistinctCardinality(Dedup(s));
    assert (set x | x in Dedup(s)) == (set x | x in s);
  }

  /** In a sequence without duplicates each element occurs once. */
  lemma {:induction false} DistinctOccursOnce<T>(s: seq<T>, x: T)
    requires NoDuplicates(s) && x in s
    ensures multiset(s)[x] == 1
  {
    var init, last := s[..|s| - 1], s[|s| - 1];
    assert s == init + [last];
    if x == last {
      assert x !in init;
    } else {
      DistinctOccursOnce(init, x);
    }
  }
}
