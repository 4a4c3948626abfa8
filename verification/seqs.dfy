/** Sequence operations the source takes from JavaScript's Array and String
    built-ins (filter, findIndex, startsWith, split, join, Set insertion order),
    each with the facts the rest of the model relies on. */
module Seqs {

  datatype Option<T> = None | Some(value: T)

  /** Number of elements of xs that satisfy p. */
  function CountWhere<T>(xs: seq<T>, p: T -> bool): nat
  {
    if |xs| == 0 then 0 else (if p(xs[0]) then 1 else 0) + CountWhere(xs[1..], p)
  }

  /** a is obtained from b by deleting elements (greedy matching decides it). */
  ghost predicate IsSubsequence<T>(a: seq<T>, b: seq<T>)
    decreases |b|
  {
    |a| == 0 || (|b| > 0 && if a[0] == b[0] then IsSubsequence(a[1..], b[1..]) else IsSubsequence(a, b[1..]))
  }

  /** No element occurs twice. */
  ghost predicate Distinct<T>(xs: seq<T>)
  {
    forall i, j :: 0 <= i < j < |xs| ==> xs[i] != xs[j]
  }

  /** r consists of exactly the elements of xs that satisfy p, in their
      order: a subsequence of p-elements as long as the count of p-elements
      (FilterUnique shows this pins r down). */
  ghost predicate IsFilterOf<T>(r: seq<T>, xs: seq<T>, p: T -> bool)
  {
    && IsSubsequence(r, xs)
    && (forall i :: 0 <= i < |r| ==> p(r[i]))
    && |r| == CountWhere(xs, p)
  }

  /** Array.prototype.filter: exactly the elements satisfying p, in their
      original order.  Being a subsequence made of p-elements whose length is
      the number of p-elements of xs determines the result uniquely. */
  function Filter<T>(xs: seq<T>, p: T -> bool): (r: seq<T>)
    ensures |r| == CountWhere(xs, p)
    ensures forall i :: 0 <= i < |r| ==> p(r[i])
    ensures forall i :: 0 <= i < |r| ==> r[i] in xs
    ensures forall i :: 0 <= i < |xs| && p(xs[i]) ==> xs[i] in r
    ensures IsSubsequence(r, xs)
    ensures IsFilterOf(r, xs, p)
  {
    if |xs| == 0 then []
    else if p(xs[0]) then [xs[0]] + Filter(xs[1..], p)
    else Filter(xs[1..], p)
  }

  /** A subsequence made only of p-elements has at most CountWhere(ys, p) of them. */
  lemma {:induction false} SubsequenceCount<T>(r: seq<T>, ys: seq<T>, p: T -> bool)
    requires IsSubsequence(r, ys)
    requires forall i :: 0 <= i < |r| ==> p(r[i])
    ensures |r| <= CountWhere(ys, p)
    decreases |ys|
  {
    if |r| > 0 {
      if r[0] == ys[0] {
        SubsequenceCount(r[1..], ys[1..], p);
      } else {
        SubsequenceCount(r, ys[1..], p);
      }
    }
  }

  /** Every element of a subsequence of b is an element of b. */
  lemma {:induction false} SubsequenceMembers<T>(a: seq<T>, b: seq<T>)
    requires IsSubsequence(a, b)
    ensures forall i :: 0 <= i < |a| ==> a[i] in b
    decreases |b|
  {
    if |a| > 0 {
      if a[0] == b[0] {
        SubsequenceMembers(a[1..], b[1..]);
      } else {
        SubsequenceMembers(a, b[1..]);
      }
    }
  }

  /** x is in a filter of xs exactly when x is in xs and satisfies p. */
  lemma FilterOfMembers<T>(r: seq<T>, xs: seq<T>, p: T -> bool, x: T)
    requires IsFilterOf(r, xs, p)
    ensures x in r <==> x in xs && p(x)
  {
    FilterUnique(r, xs, p);
  }

  /** Filter is the only subsequence of xs that consists of p-elements and
      has as many elements as xs has p-elements. */
  lemma {:induction false} FilterUnique<T>(r: seq<T>, xs: seq<T>, p: T -> bool)
    requires IsFilterOf(r, xs, p)
    ensures r == Filter(xs, p)
    decreases |xs|
  {
    if |xs| == 0 {
    } else if |r| == 0 {
      assert CountWhere(xs, p) == 0;
      assert !p(xs[0]);
      FilterUnique(r, xs[1..], p);
    } else if r[0] == xs[0] {
      FilterUnique(r[1..], xs[1..], p);
      assert r == [r[0]] + r[1..];
    } else {
      assert !p(xs[0]) by {
        if p(xs[0]) {
          SubsequenceCount(r, xs[1..], p);
        }
      }
      FilterUnique(r, xs[1..], p);
    }
  }

  lemma {:induction false} FilterAppend<T>(a: seq<T>, b: seq<T>, p: T -> bool)
    ensures Filter(a + b, p) == Filter(a, p) + Filter(b, p)
    decreases |a|
  {
    if |a| == 0 {
      assert a + b == b;
    } else {
      assert (a + b)[1..] == a[1..] + b;
      FilterAppend(a[1..], b, p);
    }
  }

  /** Filtering with a predicate every element satisfies changes nothing. */
  lemma {:induction false} FilterKeepsAll<T>(xs: seq<T>, p: T -> bool)
    requires forall i :: 0 <= i < |xs| ==> p(xs[i])
    ensures Filter(xs, p) == xs
    decreases |xs|
  {
    if |xs| > 0 {
      FilterKeepsAll(xs[1..], p);
    }
  }

  /** Filtering twice with the same predicate is filtering once. */
  lemma FilterIdempotent<T>(xs: seq<T>, p: T -> bool)
    ensures Filter(Filter(xs, p), p) == Filter(xs, p)
  {
    FilterKeepsAll(Filter(xs, p), p);
  }

  /** Array.prototype.findIndex: the first index whose element satisfies p, or -1. */
  function FindIndex<T>(xs: seq<T>, p: T -> bool): (r: int)
    ensures -1 <= r < |xs|
    ensures r == -1 <==> forall i :: 0 <= i < |xs| ==> !p(xs[i])
    ensures r >= 0 ==> p(xs[r]) && forall i :: 0 <= i < r ==> !p(xs[i])
  {
    if |xs| == 0 then -1
    else if p(xs[0]) then 0
    else var k := FindIndex(xs[1..], p); if k == -1 then -1 else k + 1
  }

  /** Index of the first occurrence of x in xs (|xs| when absent). */
  function FirstIndex<T(==)>(xs: seq<T>, x: T): (r: nat)
    ensures r <= |xs|
    ensures r < |xs| <==> x in xs
    ensures r < |xs| ==> xs[r] == x
    ensures forall i :: 0 <= i < r ==> xs[i] != x
  {
    if |xs| == 0 then 0 else if xs[0] == x then 0 else 1 + FirstIndex(xs[1..], x)
  }

  lemma FirstIndexOfPrefix<T>(xs: seq<T>, y: T, x: T)
    requires x in xs
    ensures FirstIndex(xs + [y], x) == FirstIndex(xs, x)
  {
    var k := FirstIndex(xs, x);
    var k' := FirstIndex(xs + [y], x);
    assert (xs + [y])[k] == x;
    assert k' <= k;
    assert forall i :: 0 <= i < k' ==> (xs + [y])[i] == xs[i];
  }

  /** Values in order of first appearance, each once: the iteration order of a
      JavaScript Set (or of an object's string keys) filled from xs in order. */
  function Dedup<T(==,!new)>(xs: seq<T>): (r: seq<T>)
    ensures forall x :: x in r <==> x in xs
    ensures Distinct(r)
    decreases |xs|
  {
    if |xs| == 0 then []
    else
      var init := xs[..|xs| - 1];
      var last := xs[|xs| - 1];
      assert xs == init + [last];
      var d := Dedup(init);
      if last in d then d else d + [last]
  }

  /** Dedup lists the values in the order of their first occurrence. */
  lemma {:induction false} DedupOrder<T(!new)>(xs: seq<T>)
    ensures forall i, j :: 0 <= i < j < |Dedup(xs)| ==> FirstIndex(xs, Dedup(xs)[i]) < FirstIndex(xs, Dedup(xs)[j])
    decreases |xs|
  {
    if |xs| > 0 {
      var init, last := xs[..|xs| - 1], xs[|xs| - 1];
      assert xs == init + [last];
      DedupOrder(init);
      DedupOrderStep(init, last, Dedup(init));
    }
  }

  lemma DedupOrderStep<T>(init: seq<T>, last: T, d: seq<T>)
    requires forall i :: 0 <= i < |d| ==> d[i] in init
    requires forall i :: 0 <= i < |init| ==> init[i] in d
    requires forall i, j :: 0 <= i < j < |d| ==> FirstIndex(init, d[i]) < FirstIndex(init, d[j])
    ensures last in d ==> forall i, j :: 0 <= i < j < |d| ==> FirstIndex(init + [last], d[i]) < FirstIndex(init + [last], d[j])
    ensures last !in d ==> forall i, j :: 0 <= i < j < |d + [last]| ==>
      FirstIndex(init + [last], (d + [last])[i]) < FirstIndex(init + [last], (d + [last])[j])
  {
    FirstIndicesOfPrefix(init, last, d);
    if last !in d {
      assert last !in init;
      DedupOrderNew(init, last, d);
    }
  }

  lemma DedupOrderNew<T>(init: seq<T>, last: T, d: seq<T>)
    requires last !in init
    requires forall i :: 0 <= i < |d| ==> FirstIndex(init + [last], d[i]) < |init|
    requires forall i, j :: 0 <= i < j < |d| ==> FirstIndex(init + [last], d[i]) < FirstIndex(init + [last], d[j])
    ensures forall i, j :: 0 <= i < j < |d + [last]| ==>
      FirstIndex(init + [last], (d + [last])[i]) < FirstIndex(init + [last], (d + [last])[j])
  {
    var xs, e := init + [last], d + [last];
    FirstIndexOfNew(init, last);
    forall i, j | 0 <= i < j < |e| ensures FirstIndex(xs, e[i]) < FirstIndex(xs, e[j]) {
      assert e[i] == d[i];
      if j < |d| {
        assert e[j] == d[j];
      }
    }
  }

  lemma FirstIndicesOfPrefix<T>(init: seq<T>, last: T, d: seq<T>)
    requires forall i :: 0 <= i < |d| ==> d[i] in init
    ensures forall i :: 0 <= i < |d| ==> FirstIndex(init + [last], d[i]) == FirstIndex(init, d[i]) < |init|
  {
    forall i | 0 <= i < |d| ensures FirstIndex(init + [last], d[i]) == FirstIndex(init, d[i]) < |init| {
      FirstIndexOfPrefix(init, last, d[i]);
    }
  }

  /** A value new to xs first occurs in xs + [x] at the end. */
  lemma FirstIndexOfNew<T>(xs: seq<T>, x: T)
    requires x !in xs
    ensures FirstIndex(xs + [x], x) == |xs|
  {
    assert (xs + [x])[|xs|] == x;
    assert forall i :: 0 <= i < |xs| ==> (xs + [x])[i] == xs[i];
  }

  /** One more element extends the Dedup of the prefix only when it is new. */
  lemma DedupSnoc<T(!new)>(xs: seq<T>, x: T)
    ensures Dedup(xs + [x]) == if x in Dedup(xs) then Dedup(xs) else Dedup(xs) + [x]
  {
    assert (xs + [x])[..|xs|] == xs;
  }

  /** A list without repeats is its own Dedup. */
  lemma {:induction false} DedupOfDistinct<T(!new)>(xs: seq<T>)
    requires Distinct(xs)
    ensures Dedup(xs) == xs
    decreases |xs|
  {
    if |xs| > 0 {
      var init, last := xs[..|xs| - 1], xs[|xs| - 1];
      assert xs == init + [last];
      DedupOfDistinct(init);
      DedupSnoc(init, last);
    }
  }

  /** Concatenation of a sequence of sequences. */
  function Flatten<T>(xss: seq<seq<T>>): (r: seq<T>)
    ensures forall i, x :: 0 <= i < |xss| && x in xss[i] ==> x in r
  {
    if |xss| == 0 then [] else xss[0] + Flatten(xss[1..])
  }

  lemma {:induction false} FlattenAppend<T>(a: seq<seq<T>>, b: seq<seq<T>>)
    ensures Flatten(a + b) == Flatten(a) + Flatten(b)
    decreases |a|
  {
    if |a| == 0 {
      assert a + b == b;
    } else {
      assert (a + b)[1..] == a[1..] + b;
      FlattenAppend(a[1..], b);
    }
  }

  /** Everything in the concatenation comes from one of the parts. */
  lemma {:induction false} FlattenMember<T>(xss: seq<seq<T>>, x: T)
    requires x in Flatten(xss)
    ensures exists i :: 0 <= i < |xss| && x in xss[i]
    decreases |xss|
  {
    if x !in xss[0] {
      FlattenMember(xss[1..], x);
      var i :| 0 <= i < |xss[1..]| && x in xss[1..][i];
      assert x in xss[i + 1];
    }
  }

  /** Sum of the lengths of the parts. */
  function TotalLength<T>(xss: seq<seq<T>>): nat
  {
    if |xss| == 0 then 0 else |xss[0]| + TotalLength(xss[1..])
  }

  /** String.prototype.startsWith. */
  /** The second piece of a concatenation is its suffix. */
  lemma SuffixOfConcat<T>(a: seq<T>, b: seq<T>)
    ensures (a + b)[|a + b| - |b|..] == b
  {
  }

  predicate StartsWith<T(==)>(s: seq<T>, prefix: seq<T>)
  {
    |prefix| <= |s| && s[..|prefix|] == prefix
  }

  /** A concatenation starts with its first part and continues with the second. */
  lemma PrefixOfConcat<T>(p: seq<T>, s: seq<T>)
    ensures StartsWith(p + s, p)
    ensures (p + s)[|p|..] == s
  {
  }

  lemma PrefixOfThree<T>(a: seq<T>, b: seq<T>, c: seq<T>)
    ensures StartsWith(a + b + c, a)
  {
    assert (a + b + c)[..|a|] == a;
  }

  lemma ConcatAssoc<T>(a: seq<T>, b: seq<T>, c: seq<T>)
    ensures a + (b + c) == a + b + c
  {
  }

  /** Two prefixes of the same length of one sequence are equal. */
  lemma SamePrefix<T>(s: seq<T>, a: seq<T>, b: seq<T>)
    requires StartsWith(s, a) && StartsWith(s, b) && |a| == |b|
    ensures a == b
  {
  }

  /** Two different prefixes of one length cannot both start s. */
  lemma PrefixExcludes<T>(s: seq<T>, a: seq<T>, b: seq<T>)
    requires StartsWith(s, a) && |a| == |b| && a != b
    ensures !StartsWith(s, b)
  {
    if StartsWith(s, b) {
      SamePrefix(s, a, b);
    }
  }

  /** Array.prototype.join with separator sep. */
  function Join<T>(parts: seq<seq<T>>, sep: seq<T>): (r: seq<T>)
    ensures |parts| == 0 ==> r == []
    ensures |parts| > 0 ==> |r| == TotalLength(parts) + (|parts| - 1) * |sep|
    ensures |parts| > 0 ==> StartsWith(r, parts[0])
  {
    if |parts| == 0 then []
    else if |parts| == 1 then parts[0]
    else parts[0] + sep + Join(parts[1..], sep)
  }

  /** String.prototype.split with a one-character separator. */
  function Split<T(==)>(s: seq<T>, sep: T): (r: seq<seq<T>>)
    ensures |r| >= 1
    ensures sep !in s ==> r == [s]
    ensures forall i :: 0 <= i < |r| ==> sep !in r[i]
    decreases |s|
  {
    if sep !in s then [s]
    else
      var k := FirstIndex(s, sep);
      [s[..k]] + Split(s[k + 1..], sep)
  }

  /** Splitting a + [sep] + b where a has no separator peels a off. */
  lemma SplitFront<T>(a: seq<T>, sep: T, b: seq<T>)
    requires sep !in a
    ensures Split(a + [sep] + b, sep) == [a] + Split(b, sep)
  {
    var s := a + [sep] + b;
    assert s[|a|] == sep;
    var k := FirstIndex(s, sep);
    assert forall i :: 0 <= i < |a| ==> s[i] == a[i];
    assert k == |a|;
    assert s[..k] == a;
    assert s[k + 1..] == b;
  }

  /** The part before the first separator: split(sep)[0]. */
  lemma SplitHead<T>(a: seq<T>, sep: T, b: seq<T>)
    requires sep !in a
    ensures Split(a + [sep] + b, sep)[0] == a
  {
    SplitFront(a, sep, b);
  }
}
