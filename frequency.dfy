/** Frequency tables: pandas `Series.value_counts()` and `.head(n)` on a
    column, as a sequence of (value, count) entries. */
module Frequency {
  import opened Sequences
  import opened Sorting

  datatype Entry<K> = Entry(key: K, count: nat)

  function KeyOf<K>(e: Entry<K>): K { e.key }

  /** The index column of a table. */
  function Keys<K>(t: seq<Entry<K>>): seq<K> {
    Project(t, KeyOf)
  }

  predicate DistinctKeys<K(==)>(t: seq<Entry<K>>) {
    forall i, j :: 0 <= i < j < |t| ==> t[i].key != t[j].key
  }

  predicate CountsDescending<K>(t: seq<Entry<K>>) {
    forall i, j :: 0 <= i < j < |t| ==> t[i].count >= t[j].count
  }

  /** The order `value_counts` sorts by: larger counts first. */
  predicate MoreFrequent<K>(a: Entry<K>, b: Entry<K>) {
    a.count >= b.count
  }

  /** The sum of the counts of the entries whose key satisfies `q`. */
  function TotalWhere<K>(t: seq<Entry<K>>, q: K -> bool): nat {
    if t == [] then 0
    else TotalWhere(t[..|t| - 1], q) + (if q(t[|t| - 1].key) then t[|t| - 1].count else 0)
  }

  /** The sum of all counts of a table. */
  function Total<K>(t: seq<Entry<K>>): nat {
    TotalWhere(t, Always)
  }

  /** Each of `keys` with the number of times it occurs in `column`. */
  function Tally<K(==)>(keys: seq<K>, column: seq<K>): (t: seq<Entry<K>>)
    ensures |t| == |keys|
    ensures forall i :: 0 <= i < |t| ==> t[i] == Entry(keys[i], multiset(column)[keys[i]])
  {
    if keys == [] then []
    else
      var k := keys[|keys| - 1];
      Tally(keys[..|keys| - 1], column) + [Entry(k, multiset(column)[k])]
  }

  // ---------------------------------------------------------------------
  // Sums of counts.

  lemma {:induction false} TotalWhereConcat<K>(a: seq<Entry<K>>, b: seq<Entry<K>>, q: K -> bool)
    ensures TotalWhere(a + b, q) == TotalWhere(a, q) + TotalWhere(b, q)
  {
    if b == [] {
      assert a + b == a;
    } else {
      var init := b[..|b| - 1];
      assert (a + b)[..|a + b| - 1] == a + init;
      TotalWhereConcat(a, init, q);
    }
  }

  /** Sums under masks that agree on every key of the table are equal. */
  lemma {:induction false} TotalWhereAgree<K>(t: seq<Entry<K>>, q1: K -> bool, q2: K -> bool)
    requires forall i :: 0 <= i < |t| ==> q1(t[i].key) == q2(t[i].key)
    ensures TotalWhere(t, q1) == TotalWhere(t, q2)
  {
    if t != [] {
      TotalWhereAgree(t[..|t| - 1], q1, q2);
    }
  }

  /** A mask no key meets sums to zero. */
  lemma {:induction false} TotalWhereNone<K>(t: seq<Entry<K>>, q: K -> bool)
    requires forall i :: 0 <= i < |t| ==> !q(t[i].key)
    ensures TotalWhere(t, q) == 0
  {
    if t != [] {
      TotalWhereNone(t[..|t| - 1], q);
    }
  }

  /** The sum under a mask that is the disjoint union of two masks is the
      sum of the two sums. */
  lemma {:induction false} TotalWhereUnion<K>(t: seq<Entry<K>>, q: K -> bool, q1: K -> bool, q2: K -> bool)
    requires forall i :: 0 <= i < |t| ==> q(t[i].key) == (q1(t[i].key) || q2(t[i].key))
    requires forall i :: 0 <= i < |t| ==> !(q1(t[i].key) && q2(t[i].key))
    ensures TotalWhere(t, q) == TotalWhere(t, q1) + TotalWhere(t, q2)
  {
    if t != [] {
      TotalWhereUnion(t[..|t| - 1], q, q1, q2);
    }
  }

  lemma WithoutOne<T>(b: seq<T>, i: nat)
    requires i < |b|
    ensures multiset(b[..i] + b[i + 1..]) == multiset(b) - multiset{b[i]}
  {
    assert b == b[..i] + [b[i]] + b[i + 1..];
  }

  /** Taking entry `i` out of a table takes its share out of the sum. */
  lemma {:induction false} TotalWhereRemove<K>(b: seq<Entry<K>>, i: nat, q: K -> bool)
    requires i < |b|
    ensures TotalWhere(b, q) == TotalWhere(b[..i] + b[i + 1..], q) + TotalWhere([b[i]], q)
  {
    var left, right, x := b[..i], b[i + 1..], b[i];
    assert TotalWhere(b, q) == TotalWhere(left + [x], q) + TotalWhere(right, q) by {
      assert b == (left + [x]) + right;
      TotalWhereConcat(left + [x], right, q);
    }
    assert TotalWhere(left + [x], q) == TotalWhere(left, q) + TotalWhere([x], q) by {
      TotalWhereConcat(left, [x], q);
    }
    assert TotalWhere(left + right, q) == TotalWhere(left, q) + TotalWhere(right, q) by {
      TotalWhereConcat(left, right, q);
    }
  }

  /** Reordering a table does not change its sums. */
  lemma {:induction false} TotalWherePermutation<K>(a: seq<Entry<K>>, b: seq<Entry<K>>, q: K -> bool)
    requires multiset(a) == multiset(b)
    ensures TotalWhere(a, q) == TotalWhere(b, q)
    decreases |a|
  {
    if a == [] {
      assert |b| == |multiset(b)| == 0;
    } else {
      var init, x := a[..|a| - 1], a[|a| - 1];
      assert a == init + [x];
      assert x in multiset(b);
      var i :| 0 <= i < |b| && b[i] == x;
      WithoutOne(b, i);
      assert multiset(init) == multiset(b[..i] + b[i + 1..]);
      TotalWherePermutation(init, b[..i] + b[i + 1..], q);
      TotalWhereRemove(b, i, q);
      TotalWhereConcat(init, [x], q);
    }
  }

  lemma {:induction false} TallyOfNothing<K>(keys: seq<K>, q: K -> bool)
    ensures TotalWhere(Tally(keys, []), q) == 0
  {
    if keys != [] {
      TallyOfNothing(keys[..|keys| - 1], q);
    }
  }

  lemma {:induction false} TallyOneMore<K>(keys: seq<K>, c: seq<K>, x: K, q: K -> bool)
    ensures TotalWhere(Tally(keys, c + [x]), q)
         == TotalWhere(Tally(keys, c), q) + (if q(x) then multiset(keys)[x] else 0)
  {
    if keys != [] {
      var init := keys[..|keys| - 1];
      assert keys == init + [keys[|keys| - 1]];
      TallyOneMore(init, c, x, q);
    }
  }

  /** When `keys` lists every value of `column` once, the counts of the
      keys satisfying `q` add up to the number of column entries that
      satisfy `q`. */
  lemma {:induction false} TallyTotalWhere<K>(keys: seq<K>, column: seq<K>, q: K -> bool)
    requires NoDuplicates(keys)
    requires forall i :: 0 <= i < |column| ==> column[i] in keys
    ensures TotalWhere(Tally(keys, column), q) == |Select(column, q)|
  {
    if column == [] {
      TallyOfNothing(keys, q);
    } else {
      var c, x := column[..|column| - 1], column[|column| - 1];
      assert column == c + [x];
      assert forall i :: 0 <= i < |c| ==> c[i] == column[i];
      TallyTotalWhere(keys, c, q);
      TallyOneMore(keys, c, x, q);
      DistinctOccursOnce(keys, x);
    }
  }

  // ---------------------------------------------------------------------
  // A reordered table is the same table.

  lemma {:induction false} TwoOccurrences<T>(s: seq<T>, i: nat, j: nat)
    requires i < j < |s| && s[i] == s[j]
    ensures multiset(s)[s[i]] >= 2
  {
    assert s == s[..j] + [s[j]] + s[j + 1..];
    assert s[..j][i] == s[i];
  }

  lemma {:induction false} AtMostOnce<T>(s: seq<T>, x: T)
    requires NoDuplicates(s)
    ensures multiset(s)[x] <= 1
  {
    if x in s {
      DistinctOccursOnce(s, x);
    }
  }

  lemma PermutedTable<K>(a: seq<Entry<K>>, b: seq<Entry<K>>)
    requires multiset(a) == multiset(b)
    ensures |a| == |b|
    ensures DistinctKeys(a) ==> DistinctKeys(b)
    ensures forall k :: k in Keys(a) <==> k in Keys(b)
  {
    assert |a| == |multiset(a)| == |multiset(b)| == |b|;
    if DistinctKeys(a) {
      forall i, j | 0 <= i < j < |b| ensures b[i].key != b[j].key {
        assert b[i] in multiset(a) && b[j] in multiset(a);
        var k :| 0 <= k < |a| && a[k] == b[i];
        var l :| 0 <= l < |a| && a[l] == b[j];
        if b[i] == b[j] {
          TwoOccurrences(b, i, j);
          assert NoDuplicates(a);
          AtMostOnce(a, b[i]);
        } else {
          assert k != l;
        }
      }
    }
    forall k | k in Keys(a) ensures k in Keys(b) {
      var i :| 0 <= i < |a| && Keys(a)[i] == k;
      assert a[i] in multiset(b);
      var j :| 0 <= j < |b| && b[j] == a[i];
      assert Keys(b)[j] == k;
    }
    forall k | k in Keys(b) ensures k in Keys(a) {
      var i :| 0 <= i < |b| && Keys(b)[i] == k;
      assert b[i] in multiset(a);
      var j :| 0 <= j < |a| && a[j] == b[i];
      assert Keys(a)[j] == k;
    }
  }

  lemma MoreFrequentPreorder<K(!new)>()
    ensures TotalPreorder(MoreFrequent<K>)
  {
  }

  // ---------------------------------------------------------------------
  // value_counts and head.

  /** The table `value_counts` sorts: each distinct value of `column`,
      in first-seen order, with its number of occurrences. */
  function Counted<K(==,!new)>(column: seq<K>): seq<Entry<K>> {
    Tally(Dedup(column), column)
  }

  lemma CountedFacts<K(!new)>(column: seq<K>)
    ensures DistinctKeys(Counted(column))
    ensures forall k :: k in column <==> k in Keys(Counted(column))
    ensures forall i :: 0 <= i < |Counted(column)| ==>
              Counted(column)[i].count == multiset(column)[Counted(column)[i].key]
    ensures Total(Counted(column)) == |column|
    ensures |Counted(column)| == |set k | k in column|
  {
    var keys := Dedup(column);
    CountedKeys(column);
    CountedTotal(column);
    DedupCardinality(column);
  }

  lemma CountedKeys<K(!new)>(column: seq<K>)
    ensures Keys(Counted(column)) == Dedup(column)
  {
  }

  lemma CountedTotal<K(!new)>(column: seq<K>)
    ensures Total(Counted(column)) == |column|
  {
    TallyTotalWhere(Dedup(column), column, Always);
    SelectAlways(column);
  }

  /** `column.value_counts()`: one entry per distinct value, with the
      number of times it occurs, largest count first. */
  function ValueCounts<K(==,!new)>(column: seq<K>): (t: seq<Entry<K>>)
    ensures DistinctKeys(t)
    ensures forall k :: k in column <==> k in Keys(t)
    ensures forall i :: 0 <= i < |t| ==> t[i].count == multiset(column)[t[i].key]
    ensures CountsDescending(t)
    ensures Total(t) == |column|
    ensures |t| == |set k | k in column|
  {
    var t := SortBy(Counted(column), MoreFrequent);
    ValueCountsFacts(column, t);
    t
  }

  lemma ValueCountsFacts<K(!new)>(column: seq<K>, t: seq<Entry<K>>)
    requires t == SortBy(Counted(column), MoreFrequent)
    ensures DistinctKeys(t)
    ensures forall k :: k in column <==> k in Keys(t)
    ensures forall i :: 0 <= i < |t| ==> t[i].count == multiset(column)[t[i].key]
    ensures CountsDescending(t)
    ensures Total(t) == |column|
    ensures |t| == |set k | k in column|
  {
    var c := Counted(column);
    CountedFacts(column);
    MoreFrequentPreorder<K>();
    SortBySorted(c, MoreFrequent);
    PermutedTable(c, t);
    forall i | 0 <= i < |t| ensures t[i].count == multiset(column)[t[i].key] {
      assert t[i] in multiset(c);
      var j :| 0 <= j < |c| && c[j] == t[i];
    }
    TotalWherePermutation(c, t, Always);
  }

  function Min(a: int, b: int): int {
    if a <= b then a else b
  }

  /** `column.value_counts().head(n)`: the `n` most frequent values. */
  function TopN<K(==,!new)>(column: seq<K>, n: nat): (t: seq<Entry<K>>)
    ensures |t| == Min(n, |set k | k in column|)
    ensures t == ValueCounts(column)[..|t|]
    ensures forall i, j :: 0 <= i < |t| <= j < |ValueCounts(column)| ==>
              t[i].count >= ValueCounts(column)[j].count
    ensures DistinctKeys(t) && CountsDescending(t)
    ensures forall i :: 0 <= i < |t| ==> t[i].key in column && t[i].count == multiset(column)[t[i].key]
  {
    var full := ValueCounts(column);
    var t := full[..Min(n, |full|)];
    PrefixFacts(column, full, t);
    t
  }

  lemma PrefixFacts<K(!new)>(column: seq<K>, full: seq<Entry<K>>, t: seq<Entry<K>>)
    requires full == ValueCounts(column)
    requires |t| <= |full| && t == full[..|t|]
    ensures forall i, j :: 0 <= i < |t| <= j < |full| ==> t[i].count >= full[j].count
    ensures DistinctKeys(t) && CountsDescending(t)
    ensures forall i :: 0 <= i < |t| ==> t[i].key in column && t[i].count == multiset(column)[t[i].key]
  {
    forall i | 0 <= i < |t| ensures t[i].key in column {
      assert Keys(full)[i] == t[i].key;
    }
  }
}
