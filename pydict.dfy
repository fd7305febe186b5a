/**
 * Python's `dict` as the scripts use it: an insertion-ordered association
 * list.  Assigning to a key that is already present keeps the key where it
 * is and replaces its value; assigning to a new key appends it.
 */
module PyDict {
  import opened Wrappers

  /** The items of a dict, in insertion order. */
  type Dict<K, V> = seq<(K, V)>

  /** `list(d.keys())`. */
  function Keys<K, V>(d: Dict<K, V>): (ks: seq<K>)
    ensures |ks| == |d|
    ensures forall i :: 0 <= i < |d| ==> ks[i] == d[i].0
  {
    seq(|d|, i requires 0 <= i < |d| => d[i].0)
  }

  /** No key occurs twice, as in every real dict. */
  predicate Valid<K(==, !new), V>(d: Dict<K, V>) {
    forall i, j :: 0 <= i < j < |d| ==> d[i].0 != d[j].0
  }

  /** `k in d`. */
  predicate HasKey<K(==, !new), V>(d: Dict<K, V>, k: K) {
    exists i | 0 <= i < |d| :: d[i].0 == k
  }

  /** The position of the item with key `k`: the first one, should there be several. */
  function IndexOf<K(==, !new), V>(d: Dict<K, V>, k: K): (i: nat)
    requires HasKey(d, k)
    ensures i < |d| && d[i].0 == k
    ensures forall j :: 0 <= j < i ==> d[j].0 != k
  {
    if d[0].0 == k then 0
    else
      assert HasKey(d[1..], k) by {
        var i :| 0 <= i < |d| && d[i].0 == k;
        assert d[1..][i - 1].0 == k;
      }
      IndexOf(d[1..], k) + 1
  }

  /** `d.get(k)`. */
  function Get<K(==, !new), V>(d: Dict<K, V>, k: K): (r: Option<V>)
    ensures r.Some? <==> HasKey(d, k)
    ensures r.Some? ==> exists i | 0 <= i < |d| :: d[i] == (k, r.value)
  {
    if HasKey(d, k) then
      var i := IndexOf(d, k);
      assert d[i] == (k, d[i].1);
      Some(d[i].1)
    else None
  }

  /** In a dict without repeated keys, each item is what its key reads. */
  lemma ValidGet<K(!new), V>(d: Dict<K, V>, i: nat)
    requires Valid(d) && i < |d|
    ensures Get(d, d[i].0) == Some(d[i].1)
  {
    assert HasKey(d, d[i].0);
    assert IndexOf(d, d[i].0) == i;
  }

  /** `d[k] = v`: an existing key keeps its place, a new one goes last. */
  function Put<K(==, !new), V>(d: Dict<K, V>, k: K, v: V): Dict<K, V> {
    if HasKey(d, k) then d[IndexOf(d, k) := (k, v)] else d + [(k, v)]
  }

  /** Assigning to a present key keeps the key order; a new key goes last. */
  lemma PutKeys<K(!new), V>(d: Dict<K, V>, k: K, v: V)
    ensures HasKey(d, k) ==> Keys(Put(d, k, v)) == Keys(d)
    ensures !HasKey(d, k) ==> Keys(Put(d, k, v)) == Keys(d) + [k]
  {
  }

  /** After `d[k] = v` the key reads back as `v` and every other key as before. */
  lemma PutGet<K(!new), V>(d: Dict<K, V>, k: K, v: V, k': K)
    ensures Get(Put(d, k, v), k) == Some(v)
    ensures k' != k ==> Get(Put(d, k, v), k') == Get(d, k')
  {
    var r := Put(d, k, v);
    assert HasKey(r, k) by {
      if HasKey(d, k) { assert r[IndexOf(d, k)].0 == k; } else { assert r[|d|].0 == k; }
    }
    var i := IndexOf(r, k);
    if HasKey(d, k) {
      var n := IndexOf(d, k);
      assert r[n].0 == k && forall j :: 0 <= j < n ==> r[j] == d[j];
      assert i == n;
    } else {
      assert |r| == |d| + 1 && forall j :: 0 <= j < |d| ==> r[j] == d[j];
      assert forall j :: 0 <= j < |d| ==> d[j].0 != k;
      assert i == |d|;
    }
    if k' != k {
      assert HasKey(r, k') <==> HasKey(d, k') by {
        if HasKey(r, k') {
          var i :| 0 <= i < |r| && r[i].0 == k';
          assert d[i].0 == k';
        }
        if HasKey(d, k') {
          var i :| 0 <= i < |d| && d[i].0 == k';
          assert r[i].0 == k';
        }
      }
      if HasKey(d, k') {
        var i, j := IndexOf(r, k'), IndexOf(d, k');
        assert r[j].0 == k';
        assert i < |d| && d[i].0 == k';
      }
    }
  }

  /** Assigning keeps a dict free of repeated keys. */
  lemma PutValid<K(!new), V>(d: Dict<K, V>, k: K, v: V)
    requires Valid(d)
    ensures Valid(Put(d, k, v))
  {
    var r := Put(d, k, v);
    PutKeys(d, k, v);
    if !HasKey(d, k) {
      forall i | 0 <= i < |d| ensures d[i].0 != k {
        assert d[i].0 == k ==> HasKey(d, k);
      }
    }
  }

  /** The value of the last item with key `k`, if any. */
  function LastWith<K(==), V>(es: seq<(K, V)>, k: K): (r: Option<V>)
    ensures r.None? <==> forall i :: 0 <= i < |es| ==> es[i].0 != k
    ensures r.Some? ==> exists i | 0 <= i < |es| :: es[i] == (k, r.value)
                          && forall j :: i < j < |es| ==> es[j].0 != k
  {
    if es == [] then None
    else if es[|es| - 1].0 == k then
      assert es[|es| - 1] == (k, es[|es| - 1].1);
      Some(es[|es| - 1].1)
    else
      var pre := es[..|es| - 1];
      var r := LastWith(pre, k);
      assert forall i :: 0 <= i < |pre| ==> pre[i] == es[i];
      assert r.Some? ==> exists i | 0 <= i < |es| :: es[i] == (k, r.value)
                           && forall j :: i < j < |es| ==> es[j].0 != k by {
        if r.Some? {
          var i :| 0 <= i < |pre| && pre[i] == (k, r.value)
                   && forall j :: i < j < |pre| ==> pre[j].0 != k;
          assert es[i] == (k, r.value);
        }
      }
      r
  }

  /** The value of the first item with key `k`, if any. */
  function FirstWith<K(==), V>(es: seq<(K, V)>, k: K): (r: Option<V>)
    ensures r.None? <==> forall i :: 0 <= i < |es| ==> es[i].0 != k
    ensures r.Some? ==> exists i | 0 <= i < |es| :: es[i] == (k, r.value)
                          && forall j :: 0 <= j < i ==> es[j].0 != k
  {
    if es == [] then None
    else if es[0].0 == k then
      assert es[0] == (k, es[0].1);
      Some(es[0].1)
    else
      var r := FirstWith(es[1..], k);
      assert r.Some? ==> exists i | 0 <= i < |es| :: es[i] == (k, r.value)
                           && forall j :: 0 <= j < i ==> es[j].0 != k by {
        if r.Some? {
          var i :| 0 <= i < |es| - 1 && es[1..][i] == (k, r.value)
                   && forall j :: 0 <= j < i ==> es[1..][j].0 != k;
          assert es[i + 1] == (k, r.value);
          assert forall j :: 1 <= j < i + 1 ==> es[j] == es[1..][j - 1];
        }
      }
      r
  }

  /** `for k, v in es: d[k] = v`. */
  function PutAll<K(==, !new), V>(d: Dict<K, V>, es: seq<(K, V)>): Dict<K, V>
  {
    if es == [] then d else Put(PutAll(d, es[..|es| - 1]), es[|es| - 1].0, es[|es| - 1].1)
  }

  /** `for k, v in es: if k not in d: d[k] = v`. */
  function PutAllNew<K(==, !new), V>(d: Dict<K, V>, es: seq<(K, V)>): Dict<K, V>
  {
    if es == [] then d
    else
      var d' := PutAllNew(d, es[..|es| - 1]);
      if HasKey(d', es[|es| - 1].0) then d' else Put(d', es[|es| - 1].0, es[|es| - 1].1)
  }

  /** One more step of `PutAll`, for a step that assigns at most one item. */
  lemma PutAllStep<K(!new), V>(d: Dict<K, V>, es: seq<(K, V)>, b: seq<(K, V)>)
    requires |b| <= 1
    ensures PutAll(d, es + b) == if b == [] then PutAll(d, es) else Put(PutAll(d, es), b[0].0, b[0].1)
  {
    if b == [] {
      assert es + b == es;
    } else {
      assert (es + b)[..|es + b| - 1] == es;
    }
  }

  /** Assigning one more item of `es` is one more `Put`. */
  lemma PutAllSnoc<K(!new), V>(d: Dict<K, V>, es: seq<(K, V)>, i: nat)
    requires i < |es|
    ensures PutAll(d, es[..i + 1]) == Put(PutAll(d, es[..i]), es[i].0, es[i].1)
  {
    assert es[..i + 1] == es[..i] + [es[i]];
    PutAllStep(d, es[..i], [es[i]]);
  }

  lemma PutAllNewStep<K(!new), V>(d: Dict<K, V>, es: seq<(K, V)>, b: seq<(K, V)>)
    requires |b| <= 1
    ensures PutAllNew(d, es + b) == if b == [] || HasKey(PutAllNew(d, es), b[0].0) then PutAllNew(d, es)
                                     else Put(PutAllNew(d, es), b[0].0, b[0].1)
  {
    if b == [] {
      assert es + b == es;
    } else {
      assert (es + b)[..|es + b| - 1] == es;
    }
  }

  /** Assigning a run of items: the last assignment to a key wins. */
  lemma {:induction false} PutAllGet<K(!new), V>(d: Dict<K, V>, es: seq<(K, V)>, k: K)
    ensures Get(PutAll(d, es), k) == if LastWith(es, k).Some? then LastWith(es, k) else Get(d, k)
  {
    if es != [] {
      var l := es[|es| - 1];
      PutAllGet(d, es[..|es| - 1], k);
      PutGet(PutAll(d, es[..|es| - 1]), l.0, l.1, k);
    }
  }

  /** Assigning a run of items only to absent keys: the first assignment to a key wins. */
  lemma {:induction false} PutAllNewGet<K(!new), V>(d: Dict<K, V>, es: seq<(K, V)>, k: K)
    ensures Get(PutAllNew(d, es), k) == if HasKey(d, k) then Get(d, k) else FirstWith(es, k)
  {
    if es != [] {
      var l := es[|es| - 1];
      var pre := es[..|es| - 1];
      var d' := PutAllNew(d, pre);
      PutAllNewGet(d, pre, k);
      PutGet(d', l.0, l.1, k);
      if !HasKey(d, k) {
        FirstWithPrefix(es, k);
      }
    }
  }

  /** The first item with key `k` of a sequence lies in its longest proper prefix, unless only the last one has that key. */
  lemma {:induction false} FirstWithPrefix<K, V>(es: seq<(K, V)>, k: K)
    requires es != []
    ensures FirstWith(es, k) == if FirstWith(es[..|es| - 1], k).Some? then FirstWith(es[..|es| - 1], k)
                                else if es[|es| - 1].0 == k then Some(es[|es| - 1].1) else None
  {
    if |es| > 1 && es[0].0 != k {
      FirstWithPrefix(es[1..], k);
      assert es[..|es| - 1][1..] == es[1..][..|es| - 2];
    }
  }

  /** A run of assignments keeps a dict free of repeated keys. */
  lemma {:induction false} PutAllValid<K(!new), V>(d: Dict<K, V>, es: seq<(K, V)>)
    requires Valid(d)
    ensures Valid(PutAll(d, es)) && Valid(PutAllNew(d, es))
  {
    if es != [] {
      var l := es[|es| - 1];
      PutAllValid(d, es[..|es| - 1]);
      PutValid(PutAll(d, es[..|es| - 1]), l.0, l.1);
      PutValid(PutAllNew(d, es[..|es| - 1]), l.0, l.1);
    }
  }

  /** Assigning distinct keys to an empty dict gives the items themselves, in order. */
  lemma {:induction false} PutAllFresh<K(!new), V>(es: seq<(K, V)>)
    requires Valid(es)
    ensures PutAll([], es) == es
  {
    if es != [] {
      var pre := es[..|es| - 1];
      var l := es[|es| - 1];
      assert Valid(pre);
      PutAllFresh(pre);
      assert !HasKey(pre, l.0);
      assert pre + [l] == es;
    }
  }

  /** The items without the one at `p`. */
  function RemoveAt<K, V>(a: seq<(K, V)>, p: nat): (r: seq<(K, V)>)
    requires p < |a|
    ensures |r| == |a| - 1
    ensures multiset(r) == multiset(a) - multiset{a[p]}
    ensures forall i :: 0 <= i < p ==> r[i] == a[i]
    ensures forall i :: p < i < |a| ==> r[i - 1] == a[i]
  {
    assert a == a[..p] + [a[p]] + a[p + 1..];
    SpliceMultiset(a[..p], a[p], a[p + 1..]);
    a[..p] + a[p + 1..]
  }

  lemma SpliceMultiset<T>(x: seq<T>, e: T, y: seq<T>)
    ensures multiset(x + y) == multiset(x + [e] + y) - multiset{e}
  {
    assert multiset(x + [e] + y) == multiset(x) + multiset{e} + multiset(y);
    assert multiset(x + y) == multiset(x) + multiset(y);
  }

  lemma ValidRemoveAt<K(!new), V>(a: seq<(K, V)>, p: nat)
    requires Valid(a) && p < |a|
    ensures Valid(RemoveAt(a, p))
  {
    var rest := RemoveAt(a, p);
    forall i, j | 0 <= i < j < |rest| ensures rest[i].0 != rest[j].0 {
      var i' := if i < p then i else i + 1;
      var j' := if j < p then j else j + 1;
      assert rest[i] == a[i'] && rest[j] == a[j'];
    }
  }

  /** Without the item at `p`, no item of a dict without repeated keys has that item's key. */
  lemma RemoveAtKey<K(!new), V>(a: seq<(K, V)>, p: nat)
    requires Valid(a) && p < |a|
    ensures forall y :: y in RemoveAt(a, p) ==> y.0 != a[p].0
  {
    var rest := RemoveAt(a, p);
    forall y | y in rest ensures y.0 != a[p].0 {
      var q :| 0 <= q < |rest| && rest[q] == y;
      var q' := if q < p then q else q + 1;
      assert rest[q] == a[q'];
    }
  }

  /** Reordering the items of a dict without repeated keys cannot repeat a key. */
  lemma {:induction false} ValidPermutation<K(!new), V(!new)>(a: seq<(K, V)>, b: seq<(K, V)>)
    requires Valid(a) && multiset(a) == multiset(b)
    ensures Valid(b)
    decreases |b|
  {
    if b != [] {
      var n := |b| - 1;
      var rest := PickRest(a, b);
      ValidPermutation(rest, b[..n]);
      SnocFresh(b[..n], b[n], rest);
      assert b == b[..n] + [b[n]];
    }
  }

  /** `a` without the item that ends its permutation `b`. */
  lemma PickRest<K(!new), V>(a: seq<(K, V)>, b: seq<(K, V)>) returns (rest: seq<(K, V)>)
    requires Valid(a) && multiset(a) == multiset(b) && b != []
    ensures Valid(rest) && |rest| == |b| - 1 && multiset(rest) == multiset(b[..|b| - 1])
    ensures forall y :: y in rest ==> y.0 != b[|b| - 1].0
  {
    var x := b[|b| - 1];
    assert x in multiset(b);
    var p :| 0 <= p < |a| && a[p] == x;
    rest := RemoveAt(a, p);
    ValidRemoveAt(a, p);
    RemoveAtKey(a, p);
    RemoveLast(a, b, p);
  }

  /** A key that no item of a permutation of `pre` has can be appended to `pre`. */
  lemma SnocFresh<K(!new), V>(pre: seq<(K, V)>, x: (K, V), rest: seq<(K, V)>)
    requires Valid(pre) && multiset(rest) == multiset(pre) && forall y :: y in rest ==> y.0 != x.0
    ensures Valid(pre + [x])
  {
    forall i | 0 <= i < |pre| ensures pre[i].0 != x.0 {
      assert pre[i] in multiset(pre);
      assert pre[i] in rest;
    }
    ValidSnoc(pre, x);
  }

  /** Taking the last item off `b` and the same item off its permutation `a` leaves permutations. */
  lemma RemoveLast<K, V>(a: seq<(K, V)>, b: seq<(K, V)>, p: nat)
    requires b != [] && multiset(a) == multiset(b) && p < |a| && a[p] == b[|b| - 1]
    ensures multiset(RemoveAt(a, p)) == multiset(b[..|b| - 1])
  {
    var n := |b| - 1;
    assert b == b[..n] + [b[n]];
    assert multiset(b) == multiset(b[..n]) + multiset{b[n]};
  }

  lemma ValidSnoc<K(!new), V>(d: seq<(K, V)>, x: (K, V))
    requires Valid(d) && forall i :: 0 <= i < |d| ==> d[i].0 != x.0
    ensures Valid(d + [x])
  {
  }

  /** Assigning the same key twice: the second value wins and the key keeps its place. */
  lemma PutPut<K(!new), V>(d: Dict<K, V>, k: K, v: V, w: V)
    ensures Put(Put(d, k, v), k, w) == Put(d, k, w)
  {
    var r := Put(d, k, v);
    if !HasKey(d, k) {
      assert r == d + [(k, v)];
      assert r[|d|].0 == k;
      assert forall j :: 0 <= j < |d| ==> d[j].0 != k;
      assert IndexOf(r, k) == |d|;
    } else {
      var n := IndexOf(d, k);
      assert r[n].0 == k && forall j :: 0 <= j < n ==> r[j].0 != k;
      assert IndexOf(r, k) == n;
    }
  }

  /** The items `e` gives for each element of `xs`, in order. */
  function Collect<T, K, V>(xs: seq<T>, e: T -> seq<(K, V)>): seq<(K, V)> {
    if xs == [] then [] else Collect(xs[..|xs| - 1], e) + e(xs[|xs| - 1])
  }

  lemma CollectSnoc<T, K, V>(xs: seq<T>, j: nat, e: T -> seq<(K, V)>)
    requires j < |xs|
    ensures Collect(xs[..j + 1], e) == Collect(xs[..j], e) + e(xs[j])
  {
    assert xs[..j + 1][..j] == xs[..j];
  }

  /** `e` gives at most one item per element. */
  ghost predicate AtMostOne<T, K, V>(xs: seq<T>, e: T -> seq<(K, V)>) {
    forall i :: 0 <= i < |xs| ==> |e(xs[i])| <= 1
  }

  /** `e` gives an item with key `k` for `x`. */
  ghost predicate Gives<T, K, V>(e: T -> seq<(K, V)>, x: T, k: K) {
    e(x) != [] && e(x)[0].0 == k
  }

  lemma LastWithAppend<K, V>(a: seq<(K, V)>, b: seq<(K, V)>, k: K)
    requires |b| <= 1
    ensures LastWith(a + b, k) == if b != [] && b[0].0 == k then Some(b[0].1) else LastWith(a, k)
  {
    if b != [] {
      assert (a + b)[..|a + b| - 1] == a;
    } else {
      assert a + b == a;
    }
  }

  lemma FirstWithAppend<K, V>(a: seq<(K, V)>, b: seq<(K, V)>, k: K)
    requires |b| <= 1
    ensures FirstWith(a + b, k) == if FirstWith(a, k).Some? then FirstWith(a, k)
                                   else if b != [] && b[0].0 == k then Some(b[0].1) else None
  {
    if b != [] {
      FirstWithPrefix(a + b, k);
      assert (a + b)[..|a + b| - 1] == a;
    } else {
      assert a + b == a;
    }
  }

  /** Stated for `xs`, "element `i` gives `(k, v)` and no later one gives `k`". */
  ghost predicate GivesLast<T, K, V>(xs: seq<T>, e: T -> seq<(K, V)>, k: K, v: V) {
    exists i :: 0 <= i < |xs| && e(xs[i]) == [(k, v)] && forall j :: i < j < |xs| ==> !Gives(e, xs[j], k)
  }

  lemma GivesLastDrop<T, K, V>(xs: seq<T>, e: T -> seq<(K, V)>, k: K, v: V)
    requires xs != [] && !Gives(e, xs[|xs| - 1], k)
    ensures GivesLast(xs, e, k, v) <==> GivesLast(xs[..|xs| - 1], e, k, v)
  {
    var pre := xs[..|xs| - 1];
    if GivesLast(xs, e, k, v) {
      var i :| 0 <= i < |xs| && e(xs[i]) == [(k, v)] && forall j :: i < j < |xs| ==> !Gives(e, xs[j], k);
      assert i < |pre| && pre[i] == xs[i];
      forall j | i < j < |pre| ensures !Gives(e, pre[j], k) { assert pre[j] == xs[j]; }
    }
    if GivesLast(pre, e, k, v) {
      var i :| 0 <= i < |pre| && e(pre[i]) == [(k, v)] && forall j :: i < j < |pre| ==> !Gives(e, pre[j], k);
      assert xs[i] == pre[i];
      forall j | i < j < |xs| ensures !Gives(e, xs[j], k) {
        if j < |pre| { assert xs[j] == pre[j]; }
      }
    }
  }

  lemma {:induction false} LastWithCollectNone<T, K, V>(xs: seq<T>, e: T -> seq<(K, V)>, k: K)
    requires AtMostOne(xs, e)
    ensures LastWith(Collect(xs, e), k).None? <==> forall i :: 0 <= i < |xs| ==> !Gives(e, xs[i], k)
  {
    if xs != [] {
      var n := |xs| - 1;
      AtMostOnePrefix(xs, e);
      LastWithCollectNone(xs[..n], e, k);
      LastWithAppend(Collect(xs[..n], e), e(xs[n]), k);
      NoneGivesSnoc(xs, e, k);
    }
  }

  lemma AtMostOnePrefix<T, K, V>(xs: seq<T>, e: T -> seq<(K, V)>)
    requires xs != [] && AtMostOne(xs, e)
    ensures AtMostOne(xs[..|xs| - 1], e) && |e(xs[|xs| - 1])| <= 1
  {
    var pre := xs[..|xs| - 1];
    forall i | 0 <= i < |pre| ensures |e(pre[i])| <= 1 {
      assert pre[i] == xs[i];
    }
  }

  lemma NoneGivesSnoc<T, K, V>(xs: seq<T>, e: T -> seq<(K, V)>, k: K)
    requires xs != []
    ensures var pre := xs[..|xs| - 1];
            (forall i :: 0 <= i < |xs| ==> !Gives(e, xs[i], k)) <==>
              (forall i :: 0 <= i < |pre| ==> !Gives(e, pre[i], k)) && !Gives(e, xs[|xs| - 1], k)
  {
    var pre := xs[..|xs| - 1];
    assert forall i :: 0 <= i < |pre| ==> pre[i] == xs[i];
  }

  /** The value collected last for `k` comes from the last element that gives `k`. */
  lemma {:induction false} LastWithCollect<T, K, V>(xs: seq<T>, e: T -> seq<(K, V)>, k: K, v: V)
    requires AtMostOne(xs, e)
    ensures LastWith(Collect(xs, e), k) == Some(v) <==> GivesLast(xs, e, k, v)
  {
    if xs != [] {
      var n := |xs| - 1;
      var pre := xs[..n];
      AtMostOnePrefix(xs, e);
      LastWithAppend(Collect(pre, e), e(xs[n]), k);
      if Gives(e, xs[n], k) {
        assert e(xs[n]) == [(k, e(xs[n])[0].1)];
        if GivesLast(xs, e, k, v) {
          var i :| 0 <= i < |xs| && e(xs[i]) == [(k, v)] && forall j :: i < j < |xs| ==> !Gives(e, xs[j], k);
          assert i == n;
        }
      } else {
        LastWithCollect(pre, e, k, v);
        GivesLastDrop(xs, e, k, v);
      }
    }
  }

  /** Stated for `xs`, "element `i` gives `(k, v)` and no earlier one gives `k`". */
  ghost predicate GivesFirst<T, K, V>(xs: seq<T>, e: T -> seq<(K, V)>, k: K, v: V) {
    exists i :: 0 <= i < |xs| && e(xs[i]) == [(k, v)] && forall j :: 0 <= j < i ==> !Gives(e, xs[j], k)
  }

  lemma GivesFirstSnoc<T, K, V>(xs: seq<T>, e: T -> seq<(K, V)>, k: K, v: V)
    requires xs != []
    ensures var pre := xs[..|xs| - 1];
            GivesFirst(xs, e, k, v) <==>
              GivesFirst(pre, e, k, v) || ((forall j :: 0 <= j < |pre| ==> !Gives(e, pre[j], k)) && e(xs[|xs| - 1]) == [(k, v)])
  {
    var n := |xs| - 1;
    var pre := xs[..n];
    assert forall i :: 0 <= i < |pre| ==> pre[i] == xs[i];
    if GivesFirst(xs, e, k, v) {
      var i :| 0 <= i < |xs| && e(xs[i]) == [(k, v)] && forall j :: 0 <= j < i ==> !Gives(e, xs[j], k);
      if i < n {
        assert e(pre[i]) == [(k, v)];
      }
    }
    if GivesFirst(pre, e, k, v) {
      var i :| 0 <= i < |pre| && e(pre[i]) == [(k, v)] && forall j :: 0 <= j < i ==> !Gives(e, pre[j], k);
      assert e(xs[i]) == [(k, v)];
    }
  }

  lemma {:induction false} FirstWithCollectNone<T, K, V>(xs: seq<T>, e: T -> seq<(K, V)>, k: K)
    requires AtMostOne(xs, e)
    ensures FirstWith(Collect(xs, e), k).None? <==> forall i :: 0 <= i < |xs| ==> !Gives(e, xs[i], k)
  {
    if xs != [] {
      var n := |xs| - 1;
      AtMostOnePrefix(xs, e);
      FirstWithCollectNone(xs[..n], e, k);
      FirstWithAppend(Collect(xs[..n], e), e(xs[n]), k);
      NoneGivesSnoc(xs, e, k);
    }
  }

  /** The value collected first for `k` comes from the first element that gives `k`. */
  lemma {:induction false} FirstWithCollect<T, K, V>(xs: seq<T>, e: T -> seq<(K, V)>, k: K, v: V)
    requires AtMostOne(xs, e)
    ensures FirstWith(Collect(xs, e), k) == Some(v) <==>
            exists i :: 0 <= i < |xs| && e(xs[i]) == [(k, v)] && forall j :: 0 <= j < i ==> !Gives(e, xs[j], k)
    ensures FirstWith(Collect(xs, e), k).None? <==> forall i :: 0 <= i < |xs| ==> !Gives(e, xs[i], k)
  {
    FirstWithCollectNone(xs, e, k);
    if xs != [] {
      var n := |xs| - 1;
      var pre := xs[..n];
      AtMostOnePrefix(xs, e);
      FirstWithCollect(pre, e, k, v);
      FirstWithAppend(Collect(pre, e), e(xs[n]), k);
      GivesFirstSnoc(xs, e, k, v);
      if FirstWith(Collect(pre, e), k).None? && Gives(e, xs[n], k) {
        assert e(xs[n]) == [(k, e(xs[n])[0].1)];
      }
      assert GivesFirst(xs, e, k, v) <==> FirstWith(Collect(xs, e), k) == Some(v);
    }
  }
}
