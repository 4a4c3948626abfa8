/** Grouping a list by a string key into an object literal, the way
    `list.reduce((acc, x) => { (acc[k] ||= []).push(x); return acc }, {})`
    followed by Object.entries does it: groups appear in the order their keys
    were first inserted, and each group keeps its items in list order. */
module Grouping {

  import opened Seqs

  datatype Group<T> = Group(key: string, items: seq<T>)

  function Keys<T>(gs: seq<Group<T>>): (r: seq<string>)
    ensures |r| == |gs|
    ensures forall i :: 0 <= i < |gs| ==> r[i] == gs[i].key
  {
    if |gs| == 0 then [] else [gs[0].key] + Keys(gs[1..])
  }

  lemma KeyAt<T>(gs: seq<Group<T>>, k: int)
    requires 0 <= k < |gs|
    ensures gs[k].key == Keys(gs)[k]
  {
  }

  /** The first group with a listed key has that key. */
  lemma KeyIndex<T>(gs: seq<Group<T>>, k: string)
    requires k in Keys(gs)
    ensures FirstIndex(Keys(gs), k) < |gs| && gs[FirstIndex(Keys(gs), k)].key == k
  {
  }

  function Items<T>(gs: seq<Group<T>>): (r: seq<seq<T>>)
    ensures |r| == |gs|
    ensures forall i :: 0 <= i < |gs| ==> r[i] == gs[i].items
  {
    if |gs| == 0 then [] else [gs[0].items] + Items(gs[1..])
  }

  /** The key of every element, in list order. */
  function KeyList<T>(xs: seq<T>, key: T -> string): (r: seq<string>)
    ensures |r| == |xs|
    ensures forall i :: 0 <= i < |xs| ==> r[i] == key(xs[i])
  {
    seq(|xs|, i requires 0 <= i < |xs| => key(xs[i]))
  }

  function HasKey<T>(key: T -> string, k: string): T -> bool
  {
    (x: T) => key(x) == k
  }

  /** One step of the reduce: push x onto group k, creating it at the end
      when k is new. */
  function Push<T>(gs: seq<Group<T>>, k: string, x: T): (r: seq<Group<T>>)
    ensures k in Keys(gs) ==> Keys(r) == Keys(gs)
    ensures k !in Keys(gs) ==> Keys(r) == Keys(gs) + [k]
  {
    var ks := Keys(gs);
    if k in ks then
      var j := FirstIndex(ks, k);
      var r := gs[j := Group(k, gs[j].items + [x])];
      assert Keys(r) == ks;
      r
    else
      var r := gs + [Group(k, [x])];
      assert Keys(r) == ks + [k];
      r
  }

  /** The reduce over the whole list followed by Object.entries. */
  function GroupBy<T>(xs: seq<T>, key: T -> string): seq<Group<T>>
    decreases |xs|
  {
    if |xs| == 0 then []
    else Push(GroupBy(xs[..|xs| - 1], key), key(xs[|xs| - 1]), xs[|xs| - 1])
  }

  /** The reference meaning of GroupBy: the keys are the distinct keys of
      the list in first-appearance order, and each group is the sublist of
      elements carrying its key. */
  ghost predicate GroupsOf<T>(gs: seq<Group<T>>, xs: seq<T>, key: T -> string)
  {
    && Keys(gs) == Dedup(KeyList(xs, key))
    && forall i :: 0 <= i < |gs| ==> gs[i].items == Filter(xs, HasKey(key, gs[i].key))
  }

  lemma {:induction false} GroupByMeans<T>(xs: seq<T>, key: T -> string)
    ensures GroupsOf(GroupBy(xs, key), xs, key)
    decreases |xs|
  {
    if |xs| > 0 {
      var init, x := xs[..|xs| - 1], xs[|xs| - 1];
      assert xs == init + [x];
      GroupByMeans(init, key);
      PushKeys(GroupBy(init, key), init, x, key);
      PushItems(GroupBy(init, key), init, x, key);
    }
  }

  /** Push extends the key order the way Dedup does. */
  lemma PushKeys<T>(gs: seq<Group<T>>, init: seq<T>, x: T, key: T -> string)
    requires Keys(gs) == Dedup(KeyList(init, key))
    ensures Keys(Push(gs, key(x), x)) == Dedup(KeyList(init + [x], key))
  {
    var ks := KeyList(init + [x], key);
    assert ks[..|ks| - 1] == KeyList(init, key);
    assert ks[|ks| - 1] == key(x);
  }

  /** Push puts x into the one group of its key and nowhere else. */
  lemma PushItems<T>(gs: seq<Group<T>>, init: seq<T>, x: T, key: T -> string)
    requires GroupsOf(gs, init, key)
    ensures var r := Push(gs, key(x), x);
      forall i :: 0 <= i < |r| ==> r[i].items == Filter(init + [x], HasKey(key, r[i].key))
  {
    var r := Push(gs, key(x), x);
    forall i | 0 <= i < |r| ensures r[i].items == Filter(init + [x], HasKey(key, r[i].key)) {
      PushItemsAt(gs, init, x, key, i);
    }
  }

  lemma PushItemsAt<T>(gs: seq<Group<T>>, init: seq<T>, x: T, key: T -> string, i: int)
    requires GroupsOf(gs, init, key)
    requires 0 <= i < |Push(gs, key(x), x)|
    ensures var r := Push(gs, key(x), x);
      r[i].items == Filter(init + [x], HasKey(key, r[i].key))
  {
    var k := key(x);
    var ks := Keys(gs);
    var r := Push(gs, k, x);
    var p := HasKey(key, r[i].key);
    FilterAppend(init, [x], p);
    assert Filter([x], p) == if p(x) then [x] else [];
    if k in ks {
      var j := FirstIndex(ks, k);
      assert r == gs[j := Group(k, gs[j].items + [x])];
      if i != j {
        assert ks[i] != ks[j];
        assert r[i] == gs[i];
      }
    } else {
      assert r == gs + [Group(k, [x])];
      if i == |gs| {
        NoneHaveKey(init, key, k);
      } else {
        assert r[i] == gs[i] && gs[i].key in ks;
      }
    }
  }

  /** A key absent from the key list selects nothing. */
  lemma NoneHaveKey<T>(xs: seq<T>, key: T -> string, k: string)
    requires k !in Dedup(KeyList(xs, key))
    ensures Filter(xs, HasKey(key, k)) == []
  {
  }

  /** Items of distinct groups carry distinct keys, so no element lands in
      two groups. */
  lemma GroupsDisjoint<T>(xs: seq<T>, key: T -> string, i: int, j: int, x: T)
    requires var gs := GroupBy(xs, key); 0 <= i < |gs| && 0 <= j < |gs| && i != j
    requires x in GroupBy(xs, key)[i].items
    ensures x !in GroupBy(xs, key)[j].items
  {
    var gs := GroupBy(xs, key);
    GroupByMeans(xs, key);
    assert Keys(gs)[i] != Keys(gs)[j];
  }

  /** Every element of the list is in the group of its key. */
  lemma GroupsCover<T>(xs: seq<T>, key: T -> string, n: int)
    requires 0 <= n < |xs|
    ensures var gs := GroupBy(xs, key);
      key(xs[n]) in Keys(gs) && xs[n] in gs[FirstIndex(Keys(gs), key(xs[n]))].items
  {
    var gs := GroupBy(xs, key);
    GroupByMeans(xs, key);
    assert KeyList(xs, key)[n] == key(xs[n]);
    var j := FirstIndex(Keys(gs), key(xs[n]));
    assert gs[j].key == key(xs[n]);
  }

  /** Concatenating the groups uses every element exactly once. */
  lemma {:induction false} GroupByPermutes<T>(xs: seq<T>, key: T -> string)
    ensures multiset(Flatten(Items(GroupBy(xs, key)))) == multiset(xs)
    decreases |xs|
  {
    if |xs| > 0 {
      var init, x := xs[..|xs| - 1], xs[|xs| - 1];
      assert xs == init + [x];
      GroupByPermutes(init, key);
      PushAddsOne(GroupBy(init, key), key(x), x);
    }
  }

  lemma PushAddsOne<T>(gs: seq<Group<T>>, k: string, x: T)
    ensures multiset(Flatten(Items(Push(gs, k, x)))) == multiset(Flatten(Items(gs))) + multiset{x}
  {
    var ks := Keys(gs);
    if k in ks {
      var j := FirstIndex(ks, k);
      assert Push(gs, k, x) == gs[j := Group(k, gs[j].items + [x])];
      PushIntoExisting(gs, j, k, x);
    } else {
      assert Push(gs, k, x) == gs + [Group(k, [x])];
      ItemsAppend(gs, Group(k, [x]));
      FlattenAppend(Items(gs), [[x]]);
      assert Flatten([[x]]) == [x];
    }
  }

  lemma PushIntoExisting<T>(gs: seq<Group<T>>, j: int, k: string, x: T)
    requires 0 <= j < |gs|
    ensures var r := gs[j := Group(k, gs[j].items + [x])];
      multiset(Flatten(Items(r))) == multiset(Flatten(Items(gs))) + multiset{x}
  {
    var r := gs[j := Group(k, gs[j].items + [x])];
    ItemsUpdate(gs, j, Group(k, gs[j].items + [x]));
    FlattenUpdate(Items(gs), j, gs[j].items + [x]);
    MultisetCancel(multiset(Flatten(Items(r))), multiset(Flatten(Items(gs))), multiset(gs[j].items), x);
  }

  lemma MultisetCancel<T>(a: multiset<T>, b: multiset<T>, m: multiset<T>, x: T)
    requires a + m == b + (m + multiset{x})
    ensures a == b + multiset{x}
  {
    forall y ensures a[y] == (b + multiset{x})[y] {
      assert (a + m)[y] == (b + (m + multiset{x}))[y];
    }
  }

  lemma ItemsUpdate<T>(gs: seq<Group<T>>, j: int, g: Group<T>)
    requires 0 <= j < |gs|
    ensures Items(gs[j := g]) == Items(gs)[j := g.items]
  {
  }

  lemma ItemsAppend<T>(gs: seq<Group<T>>, g: Group<T>)
    ensures Items(gs + [g]) == Items(gs) + [g.items]
  {
  }

  /** Replacing one part changes the flattened multiset by exactly that part. */
  lemma FlattenUpdate<T>(xss: seq<seq<T>>, j: int, v: seq<T>)
    requires 0 <= j < |xss|
    ensures multiset(Flatten(xss[j := v])) + multiset(xss[j]) == multiset(Flatten(xss)) + multiset(v)
  {
    var a, b := xss[..j], xss[j + 1..];
    assert xss == a + [xss[j]] + b;
    assert xss[j := v] == a + [v] + b;
    FlattenAppend(a + [xss[j]], b);
    FlattenAppend(a, [xss[j]]);
    FlattenAppend(a + [v], b);
    FlattenAppend(a, [v]);
    assert Flatten([xss[j]]) == xss[j];
    assert Flatten([v]) == v;
  }
}
