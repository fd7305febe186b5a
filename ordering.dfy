/**
 * Python's ordering of `str` values (code point by code point, a proper
 * prefix first) and the `sorted(..., key=...)` the scripts use on
 * dict items and on language lists.
 */
module Ordering {

  /** Python's `a < b` on strings. */
  predicate LexLess(a: string, b: string) {
    if a == [] then b != []
    else b != [] && (a[0] < b[0] || (a[0] == b[0] && LexLess(a[1..], b[1..])))
  }

  /** Python's `a <= b` on strings. */
  predicate LexLe(a: string, b: string) {
    a == b || LexLess(a, b)
  }

  lemma {:induction false} LexIrreflexive(a: string)
    ensures !LexLess(a, a)
  {
    if a != [] {
      LexIrreflexive(a[1..]);
    }
  }

  /** Any two strings are ordered one way or the other. */
  lemma {:induction false} LexTotal(a: string, b: string)
    ensures a == b || LexLess(a, b) || LexLess(b, a)
  {
    if a != [] && b != [] && a[0] == b[0] {
      LexTotal(a[1..], b[1..]);
      if a[1..] == b[1..] {
        assert a == [a[0]] + a[1..] && b == [b[0]] + b[1..];
      }
    }
  }

  lemma {:induction false} LexAsymmetric(a: string, b: string)
    ensures !(LexLess(a, b) && LexLess(b, a))
  {
    if a != [] && b != [] && a[0] == b[0] {
      LexAsymmetric(a[1..], b[1..]);
    }
  }

  lemma {:induction false} LexTransitive(a: string, b: string, c: string)
    requires LexLess(a, b) && LexLess(b, c)
    ensures LexLess(a, c)
  {
    if a != [] && a[0] == b[0] && b[0] == c[0] {
      LexTransitive(a[1..], b[1..], c[1..]);
    }
  }

  lemma LeTransitive(a: string, b: string, c: string)
    requires LexLe(a, b) && LexLe(b, c)
    ensures LexLe(a, c)
  {
    if a != b && b != c {
      LexTransitive(a, b, c);
    }
  }

  /** `s` is in ascending order of `key`. */
  predicate SortedBy<T>(s: seq<T>, key: T -> string) {
    forall i, j :: 0 <= i < j < |s| ==> LexLe(key(s[i]), key(s[j]))
  }

  /** Every key in `s` is at least `k`. */
  predicate LowerBound<T>(k: string, s: seq<T>, key: T -> string) {
    forall i :: 0 <= i < |s| ==> LexLe(k, key(s[i]))
  }

  lemma ConsSorted<T>(y: T, t: seq<T>, key: T -> string)
    requires SortedBy(t, key) && LowerBound(key(y), t, key)
    ensures SortedBy([y] + t, key)
  {
    forall i, j | 0 <= i < j < |t| + 1 ensures LexLe(key(([y] + t)[i]), key(([y] + t)[j])) {
      assert ([y] + t)[j] == t[j - 1];
      if i > 0 { assert ([y] + t)[i] == t[i - 1]; }
    }
  }

  lemma BoundPermuted<T>(k: string, a: seq<T>, b: seq<T>, key: T -> string)
    requires multiset(a) == multiset(b) && LowerBound(k, a, key)
    ensures LowerBound(k, b, key)
  {
    forall i | 0 <= i < |b| ensures LexLe(k, key(b[i])) {
      assert b[i] in multiset(a);
      var j :| 0 <= j < |a| && a[j] == b[i];
    }
  }

  /**
   * Inserts `x` in front of the first element whose key is not smaller;
   * elements that are already in place keep their relative order.
   */
  function Insert<T>(x: T, s: seq<T>, key: T -> string): (r: seq<T>)
    requires SortedBy(s, key)
    ensures multiset(r) == multiset(s) + multiset{x}
    ensures SortedBy(r, key)
  {
    if s == [] then [x]
    else if LexLe(key(x), key(s[0])) then
      assert LowerBound(key(x), s, key) by {
        forall j | 0 <= j < |s| ensures LexLe(key(x), key(s[j])) {
          if j > 0 { LeTransitive(key(x), key(s[0]), key(s[j])); }
        }
      }
      ConsSorted(x, s, key);
      assert s == [s[0]] + s[1..];
      [x] + s
    else
      var t := Insert(x, s[1..], key);
      LexTotal(key(x), key(s[0]));
      assert s == [s[0]] + s[1..];
      assert LowerBound(key(s[0]), s[1..] + [x], key) by {
        forall j | 0 <= j < |s| ensures LexLe(key(s[0]), key((s[1..] + [x])[j])) {
          if j < |s| - 1 { assert (s[1..] + [x])[j] == s[j + 1]; }
        }
      }
      BoundPermuted(key(s[0]), s[1..] + [x], t, key);
      ConsSorted(s[0], t, key);
      [s[0]] + t
  }

  /** `sorted(s, key=key)`, as an insertion sort. */
  function SortBy<T>(s: seq<T>, key: T -> string): (r: seq<T>)
    ensures multiset(r) == multiset(s)
    ensures |r| == |s|
    ensures SortedBy(r, key)
  {
    if s == [] then []
    else
      assert s == [s[0]] + s[1..];
      var r := Insert(s[0], SortBy(s[1..], key), key);
      assert |r| == |multiset(r)|;
      r
  }
}
