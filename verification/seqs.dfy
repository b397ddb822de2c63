/** Order-preserving filtering of sequences, the shape of every list view and
    every count in the application (Python list comprehensions with an `if`,
    JavaScript `Array.prototype.filter`). */
module Seqs {
  import opened Wrappers

  /** The elements of `s` that satisfy `p`, in their original order: every
      element that satisfies `p` is kept as often as it occurs, and no other
      element is kept. */
  function Filter<T(!new)>(s: seq<T>, p: T -> bool): (r: seq<T>)
    ensures |r| <= |s|
    ensures forall x :: x in r <==> x in s && p(x)
    ensures forall x {:trigger multiset(r)[x]} :: multiset(r)[x] == (if p(x) then multiset(s)[x] else 0)
    decreases |s|
  {
    if |s| == 0 then []
    else
      assert s == [s[0]] + s[1..];
      (if p(s[0]) then [s[0]] else []) + Filter(s[1..], p)
  }

  /** `a` can be obtained from `b` by deleting elements, without reordering. */
  predicate IsSubsequence<T(==)>(a: seq<T>, b: seq<T>)
    decreases |b|
  {
    if |a| == 0 then true
    else if |b| == 0 then false
    else if a[0] == b[0] then IsSubsequence(a[1..], b[1..])
    else IsSubsequence(a, b[1..])
  }

  /** Dropping the head of the larger sequence keeps a subsequence a subsequence. */
  lemma {:induction false} SubsequenceOfTail<T>(a: seq<T>, b: seq<T>)
    requires |b| > 0 && IsSubsequence(a, b[1..])
    ensures IsSubsequence(a, b)
    decreases |b|, 0
  {
    if |a| > 0 && a[0] == b[0] {
      // a[1..] is a subsequence of b[1..] because a is one of b[1..]
      SubsequenceDropHead(a, b[1..]);
    }
  }

  /** Dropping the head of the smaller sequence keeps a subsequence a subsequence. */
  lemma {:induction false} SubsequenceDropHead<T>(a: seq<T>, b: seq<T>)
    requires |a| > 0 && IsSubsequence(a, b)
    ensures IsSubsequence(a[1..], b)
    decreases |b|, 1
  {
    if a[0] == b[0] {
      SubsequenceOfTail(a[1..], b);
    } else {
      SubsequenceDropHead(a, b[1..]);
      SubsequenceOfTail(a[1..], b);
    }
  }

  /** Every filter result is an order-preserving subsequence of its input. */
  lemma {:induction false} FilterIsSubsequence<T(!new)>(s: seq<T>, p: T -> bool)
    ensures IsSubsequence(Filter(s, p), s)
    decreases |s|
  {
    if |s| > 0 {
      FilterIsSubsequence(s[1..], p);
      if !p(s[0]) {
        assert Filter(s, p) == Filter(s[1..], p);
        SubsequenceOfTail(Filter(s, p), s);
      }
    }
  }

  /** Filters with pointwise-equal predicates select the same elements. */
  lemma {:induction false} FilterExtensional<T(!new)>(s: seq<T>, p: T -> bool, q: T -> bool)
    requires forall x :: x in s ==> p(x) == q(x)
    ensures Filter(s, p) == Filter(s, q)
    decreases |s|
  {
    if |s| > 0 {
      FilterExtensional(s[1..], p, q);
    }
  }

  /** A predicate and its complement split a sequence: sizes add up to the whole
      and, counted with multiplicity, every element lands on exactly one side. */
  lemma FilterPartition<T(!new)>(s: seq<T>, p: T -> bool, q: T -> bool)
    requires forall x :: x in s ==> q(x) == !p(x)
    ensures |Filter(s, p)| + |Filter(s, q)| == |s|
    ensures multiset(Filter(s, p)) + multiset(Filter(s, q)) == multiset(s)
  {
    var a := multiset(Filter(s, p));
    var b := multiset(Filter(s, q));
    forall x
      ensures (a + b)[x] == multiset(s)[x]
    {
      if x !in s {
        assert multiset(s)[x] == 0;
      }
    }
    assert a + b == multiset(s);
  }

  /** A predicate that holds everywhere keeps the whole sequence. */
  lemma {:induction false} FilterAll<T(!new)>(s: seq<T>, p: T -> bool)
    requires forall x :: x in s ==> p(x)
    ensures Filter(s, p) == s
    decreases |s|
  {
    if |s| > 0 {
      FilterAll(s[1..], p);
      assert s == [s[0]] + s[1..];
    }
  }

  /** Filtering distributes over concatenation. */
  lemma {:induction false} FilterConcat<T(!new)>(a: seq<T>, b: seq<T>, p: T -> bool)
    ensures Filter(a + b, p) == Filter(a, p) + Filter(b, p)
    decreases |a|
  {
    if |a| > 0 {
      assert (a + b)[1..] == a[1..] + b;
      FilterConcat(a[1..], b, p);
    } else {
      assert a + b == b;
    }
  }

  /** Filtering by `r` counts the same as filtering each side of a partition
      by `r` and adding up. */
  lemma FilterSplitCount<T(!new)>(s: seq<T>, p: T -> bool, q: T -> bool, r: T -> bool)
    requires forall x :: x in s ==> q(x) == !p(x)
    ensures |Filter(s, r)| == |Filter(Filter(s, p), r)| + |Filter(Filter(s, q), r)|
  {
    FilterCommute(s, p, r);
    FilterCommute(s, q, r);
    FilterPartition(Filter(s, r), p, q);
  }

  /** Filtering by `p` and then by `q` is filtering by their conjunction `r`. */
  lemma {:induction false} FilterFuse<T(!new)>(s: seq<T>, p: T -> bool, q: T -> bool, r: T -> bool)
    requires forall x :: x in s ==> r(x) == (p(x) && q(x))
    ensures Filter(Filter(s, p), q) == Filter(s, r)
    decreases |s|
  {
    if |s| > 0 {
      assert forall x :: x in s[1..] ==> x in s;
      FilterFuse(s[1..], p, q, r);
      var head := if p(s[0]) then [s[0]] else [];
      FilterConcat(head, Filter(s[1..], p), q);
      assert [s[0]][1..] == [];
    }
  }

  /** Two filters applied one after the other commute. */
  lemma {:induction false} FilterCommute<T(!new)>(s: seq<T>, p: T -> bool, q: T -> bool)
    ensures Filter(Filter(s, p), q) == Filter(Filter(s, q), p)
    decreases |s|
  {
    if |s| > 0 {
      FilterCommute(s[1..], p, q);
      var t := s[1..];
      var head := [s[0]];
      assert Filter(s, p) == (if p(s[0]) then head else []) + Filter(t, p);
      assert Filter(s, q) == (if q(s[0]) then head else []) + Filter(t, q);
      FilterConcat(if p(s[0]) then head else [], Filter(t, p), q);
      FilterConcat(if q(s[0]) then head else [], Filter(t, q), p);
      assert head[1..] == [];
    }
  }

  /** The value of the first entry with this key: property access on a
      JavaScript object literal, written as a table of entries. */
  function Lookup<K(==), V>(table: seq<(K, V)>, key: K): (r: Option<V>)
    ensures r.None? <==> forall i | 0 <= i < |table| :: table[i].0 != key
    ensures r.Some? ==> (key, r.value) in table
    decreases |table|
  {
    if |table| == 0 then None
    else if table[0].0 == key then Some(table[0].1)
    else Lookup(table[1..], key)
  }

  /** No two entries of the table share a key. */
  predicate DistinctKeys<K(==), V>(table: seq<(K, V)>)
  {
    forall i, j | 0 <= i < j < |table| :: table[i].0 != table[j].0
  }

  /** In a table with distinct keys every entry is found by its key. */
  lemma {:induction false} LookupEntry<K, V>(table: seq<(K, V)>, i: nat)
    requires DistinctKeys(table)
    requires i < |table|
    ensures Lookup(table, table[i].0) == Some(table[i].1)
    decreases |table|
  {
    if i > 0 {
      assert table[0].0 != table[i].0;
      assert table[1..][i - 1] == table[i];
      LookupEntry(table[1..], i - 1);
    }
  }
}
