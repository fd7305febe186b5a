/**
 * The handful of Python `str` operations the conversion scripts rely on
 * (`in`, `replace`, `strip`, `split`, `join`, `lower`/`upper`, `ljust`-style
 * format padding and decimal formatting of a non-negative int), each stated
 * once with the property a caller relies on.
 */
module PyStr {

  /** `p` occurs in `s` starting at index `i`. */
  predicate StartsAt(s: string, i: nat, p: string) {
    i + |p| <= |s| && s[i..i + |p|] == p
  }

  /** Python's substring test `p in s`. */
  predicate Contains(s: string, p: string) {
    exists i | 0 <= i <= |s| :: StartsAt(s, i, p)
  }

  lemma ContainsTail(s: string, p: string)
    requires s != []
    ensures Contains(s[1..], p) ==> Contains(s, p)
  {
    if Contains(s[1..], p) {
      var i :| 0 <= i <= |s[1..]| && StartsAt(s[1..], i, p);
      assert s[1..][i..i + |p|] == s[i + 1..i + 1 + |p|];
      assert StartsAt(s, i + 1, p);
    }
  }

  lemma ContainsChar(s: string, c: char)
    ensures Contains(s, [c]) <==> c in s
  {
    if c in s {
      var i :| 0 <= i < |s| && s[i] == c;
      assert s[i..i + 1] == [c];
      assert StartsAt(s, i, [c]);
    }
    if Contains(s, [c]) {
      var i :| 0 <= i <= |s| && StartsAt(s, i, [c]);
      assert s[i] == s[i..i + 1][0];
    }
  }

  /**
   * Python's `s.replace(pat, rep)`: occurrences of `pat` are found left to
   * right without overlapping and each is replaced by `rep`.
   */
  function Replace(s: string, pat: string, rep: string): (r: string)
    requires pat != []
    ensures !Contains(s, pat) ==> r == s
    decreases |s|
  {
    if |s| < |pat| then s
    else if s[..|pat|] == pat then
      assert StartsAt(s, 0, pat);
      rep + Replace(s[|pat|..], pat, rep)
    else
      ContainsTail(s, pat);
      [s[0]] + Replace(s[1..], pat, rep)
  }

  /**
   * Every `c` in `s` is immediately preceded by a backslash; `lead` tells
   * whether a backslash stands right before `s` itself.
   */
  predicate EscapedIn(s: string, c: char, lead: bool) {
    && (s != [] && s[0] == c ==> lead)
    && forall i :: 0 < i < |s| && s[i] == c ==> s[i - 1] == '\\'
  }

  /** Replacing every `c` (other than the backslash) by a backslash and `c` escapes every `c`. */
  lemma {:induction false} ReplaceEscapes(s: string, c: char)
    requires c != '\\'
    ensures EscapedIn(Replace(s, [c], ['\\', c]), c, false)
    decreases |s|
  {
    if |s| >= 1 {
      var t := Replace(s[1..], [c], ['\\', c]);
      ReplaceEscapes(s[1..], c);
      var r := Replace(s, [c], ['\\', c]);
      if s[..1] == [c] {
        assert r == ['\\', c] + t;
        forall i | 0 < i < |r| && r[i] == c
          ensures r[i - 1] == '\\'
        {
          if i > 2 {
            assert r[i] == t[i - 2] && r[i - 1] == t[i - 3];
          }
        }
      } else {
        assert r == [s[0]] + t;
        assert s[..1] == [s[0]];
        forall i | 0 < i < |r| && r[i] == c
          ensures r[i - 1] == '\\'
        {
          assert r[i] == t[i - 1];
          if i > 1 {
            assert r[i - 1] == t[i - 2];
          }
        }
      }
    }
  }

  /**
   * A replacement whose pattern holds neither `c` nor a backslash and whose
   * replacement text holds no `c` keeps every `c` escaped.
   */
  lemma {:induction false} ReplaceKeepsEscaped(s: string, pat: string, rep: string, c: char, lead: bool)
    requires pat != [] && c !in pat && '\\' !in pat && c !in rep
    requires EscapedIn(s, c, lead)
    ensures EscapedIn(Replace(s, pat, rep), c, lead)
    decreases |s|
  {
    var r := Replace(s, pat, rep);
    if |s| >= |pat| {
      if s[..|pat|] == pat {
        var u := s[|pat|..];
        assert s[|pat| - 1] == pat[|pat| - 1];
        assert EscapedIn(u, c, false) by {
          forall i | 0 < i < |u| && u[i] == c
            ensures u[i - 1] == '\\'
          {
            assert s[|pat| + i] == c;
          }
        }
        ReplaceKeepsEscaped(u, pat, rep, c, false);
        var t := Replace(u, pat, rep);
        assert r == rep + t;
        forall i | 0 <= i < |r| && r[i] == c
          ensures i > 0 && r[i - 1] == '\\'
        {
          if i < |rep| {
            assert false;
          } else {
            assert r[i] == t[i - |rep|];
            if i > |rep| {
              assert r[i - 1] == t[i - |rep| - 1];
            }
          }
        }
      } else {
        var u := s[1..];
        assert EscapedIn(u, c, s[0] == '\\') by {
          forall i | 0 < i < |u| && u[i] == c
            ensures u[i - 1] == '\\'
          {
            assert s[i + 1] == c;
          }
        }
        ReplaceKeepsEscaped(u, pat, rep, c, s[0] == '\\');
        var t := Replace(u, pat, rep);
        assert r == [s[0]] + t;
        forall i | 0 < i < |r| && r[i] == c
          ensures r[i - 1] == '\\'
        {
          assert r[i] == t[i - 1];
          if i > 1 {
            assert r[i - 1] == t[i - 2];
          }
        }
      }
    }
  }

  /** A prefix of the output without the first character of `rep` was copied unchanged. */
  lemma {:induction false} ReplacePrefixCopied(s: string, pat: string, rep: string, n: nat)
    requires pat != [] && rep != [] && n <= |Replace(s, pat, rep)|
    ensures rep[0] !in Replace(s, pat, rep)[..n] ==> n <= |s| && Replace(s, pat, rep)[..n] == s[..n]
    decreases |s|
  {
    var r := Replace(s, pat, rep);
    if |s| >= |pat| && n > 0 {
      if s[..|pat|] == pat {
        assert r == rep + Replace(s[|pat|..], pat, rep);
        assert r[..n][0] == rep[0];
      } else {
        var t := Replace(s[1..], pat, rep);
        assert r == [s[0]] + t;
        assert t[..n - 1] == r[1..n];
        ReplacePrefixCopied(s[1..], pat, rep, n - 1);
        if rep[0] !in r[..n] {
          assert rep[0] !in t[..n - 1];
          assert r[..n] == [s[0]] + t[..n - 1];
          assert s[..n] == [s[0]] + s[1..][..n - 1];
        }
      }
    }
  }

  /**
   * After `s.replace(pat, rep)` no `pat` is left, when `rep` does not hold
   * the first character of `pat` and `pat` does not hold the first
   * character of `rep` (so no occurrence can start inside a replacement or
   * run into one).
   */
  lemma {:induction false} ReplaceRemoves(s: string, pat: string, rep: string)
    requires pat != [] && rep != [] && pat[0] !in rep && rep[0] !in pat
    ensures !Contains(Replace(s, pat, rep), pat)
    decreases |s|
  {
    var r := Replace(s, pat, rep);
    if |s| >= |pat| {
      if s[..|pat|] == pat {
        ReplaceRemoves(s[|pat|..], pat, rep);
        PrependReplacement(rep, Replace(s[|pat|..], pat, rep), pat);
      } else {
        ReplaceRemoves(s[1..], pat, rep);
        if |pat| <= |r| {
          ReplacePrefixCopied(s, pat, rep, |pat|);
        }
        PrependCopied(s[0], Replace(s[1..], pat, rep), pat);
      }
    }
  }

  /**
   * Under the same conditions on `q`, a text without `q` stays without `q`
   * through `s.replace(pat, rep)`.
   */
  lemma {:induction false} ReplaceKeepsAbsent(s: string, pat: string, rep: string, q: string)
    requires pat != [] && rep != [] && q != [] && q[0] !in rep && rep[0] !in q
    requires !Contains(s, q)
    ensures !Contains(Replace(s, pat, rep), q)
    decreases |s|
  {
    var r := Replace(s, pat, rep);
    if |s| >= |pat| {
      if s[..|pat|] == pat {
        DropPrefixAbsent(s, |pat|, q);
        ReplaceKeepsAbsent(s[|pat|..], pat, rep, q);
        PrependReplacement(rep, Replace(s[|pat|..], pat, rep), q);
      } else {
        ContainsTail(s, q);
        ReplaceKeepsAbsent(s[1..], pat, rep, q);
        if |q| <= |r| {
          ReplacePrefixCopied(s, pat, rep, |q|);
          assert !StartsAt(s, 0, q);
        }
        PrependCopied(s[0], Replace(s[1..], pat, rep), q);
      }
    }
  }

  /** A suffix of a text without `q` is without `q`. */
  lemma DropPrefixAbsent(s: string, k: nat, q: string)
    requires k <= |s| && !Contains(s, q)
    ensures !Contains(s[k..], q)
  {
    forall i | 0 <= i <= |s[k..]| ensures !StartsAt(s[k..], i, q) {
      if i + |q| <= |s[k..]| {
        assert s[k..][i..i + |q|] == s[k + i..k + i + |q|];
        assert !StartsAt(s, k + i, q);
      }
    }
  }

  /** A text without `pat` behind a replacement that lacks `pat`'s first character is without `pat`. */
  lemma PrependReplacement(rep: string, t: string, pat: string)
    requires pat != [] && pat[0] !in rep && !Contains(t, pat)
    ensures !Contains(rep + t, pat)
  {
    var r := rep + t;
    forall i | 0 <= i <= |r| ensures !StartsAt(r, i, pat) {
      if i + |pat| <= |r| {
        if i < |rep| {
          assert r[i..i + |pat|][0] == rep[i];
        } else {
          assert r[i..i + |pat|] == t[i - |rep|..i - |rep| + |pat|];
          assert !StartsAt(t, i - |rep|, pat);
        }
      }
    }
  }

  /** One character in front of a text without the pattern adds an occurrence only at the front. */
  lemma PrependCopied(c: char, t: string, pat: string)
    requires !Contains(t, pat) && !StartsAt([c] + t, 0, pat)
    ensures !Contains([c] + t, pat)
  {
    var r := [c] + t;
    forall i | 0 < i <= |r| ensures !StartsAt(r, i, pat) {
      if i + |pat| <= |r| {
        assert r[i..i + |pat|] == t[i - 1..i - 1 + |pat|];
        assert !StartsAt(t, i - 1, pat);
      }
    }
  }

  /** The characters Python's `str.strip()` removes (`str.isspace`). */
  predicate IsSpace(c: char) {
    || ('\t' <= c <= '\r')
    || ('\U{1C}' <= c <= ' ')
    || c == '\U{85}' || c == '\U{A0}' || c == '\U{1680}'
    || ('\U{2000}' <= c <= '\U{200A}')
    || c == '\U{2028}' || c == '\U{2029}' || c == '\U{202F}' || c == '\U{205F}' || c == '\U{3000}'
  }

  /** Python's `s.lstrip()`. */
  function LStrip(s: string): (r: string)
    ensures |r| <= |s| && r == s[|s| - |r|..]
    ensures r != [] ==> !IsSpace(r[0])
    ensures forall i :: 0 <= i < |s| - |r| ==> IsSpace(s[i])
  {
    if s != [] && IsSpace(s[0]) then
      var r := LStrip(s[1..]);
      DropFront(s, r, IsSpace);
      r
    else s
  }

  /** What is left of `s[1..]` after dropping a prefix of `p` characters is what is left of `s`. */
  lemma DropFront(s: string, r: string, p: char -> bool)
    requires s != [] && p(s[0]) && |r| <= |s| - 1 && r == s[1..][|s| - 1 - |r|..]
    requires forall i :: 0 <= i < |s| - 1 - |r| ==> p(s[1..][i])
    ensures r == s[|s| - |r|..] && forall i :: 0 <= i < |s| - |r| ==> p(s[i])
  {
    assert forall i :: 0 < i < |s| ==> s[i] == s[1..][i - 1];
  }

  /** Python's `s.rstrip()`. */
  function RStrip(s: string): (r: string)
    ensures |r| <= |s| && r == s[..|r|]
    ensures r != [] ==> !IsSpace(r[|r| - 1])
    ensures forall i :: |r| <= i < |s| ==> IsSpace(s[i])
  {
    if s != [] && IsSpace(s[|s| - 1]) then
      var r := RStrip(s[..|s| - 1]);
      DropBack(s, s[..|s| - 1], r, IsSpace);
      r
    else s
  }

  /** What is left of `s[..|s| - 1]` after dropping a suffix of `p` characters is what is left of `s`. */
  lemma DropBack(s: string, t: string, r: string, p: char -> bool)
    requires s != [] && p(s[|s| - 1]) && t == s[..|s| - 1] && |r| <= |t| && r == t[..|r|]
    requires forall i :: |r| <= i < |t| ==> p(t[i])
    ensures r == s[..|r|] && forall i :: |r| <= i < |s| ==> p(s[i])
  {
  }

  /**
   * Python's `s.strip()`: the result is the infix of `s` left after removing
   * the whitespace at both ends, and it neither starts nor ends with whitespace.
   */
  function Strip(s: string): (r: string)
    ensures r != [] ==> !IsSpace(r[0]) && !IsSpace(r[|r| - 1])
    ensures exists a | 0 <= a <= |s| :: StartsAt(s, a, r)
                          && (forall i :: 0 <= i < a ==> IsSpace(s[i]))
                          && (forall i :: a + |r| <= i < |s| ==> IsSpace(s[i]))
  {
    var l := LStrip(s);
    var r := RStrip(l);
    StripWitness(s, l, r);
    r
  }

  /** Trimming whitespace from the front and then from the back leaves an infix. */
  lemma StripWitness(s: string, l: string, r: string)
    requires |l| <= |s| && l == s[|s| - |l|..] && forall i :: 0 <= i < |s| - |l| ==> IsSpace(s[i])
    requires l != [] ==> !IsSpace(l[0])
    requires |r| <= |l| && r == l[..|r|] && forall i :: |r| <= i < |l| ==> IsSpace(l[i])
    requires r != [] ==> !IsSpace(r[|r| - 1])
    ensures r != [] ==> !IsSpace(r[0]) && !IsSpace(r[|r| - 1])
    ensures var a := |s| - |l|;
            && StartsAt(s, a, r)
            && (forall i :: 0 <= i < a ==> IsSpace(s[i]))
            && (forall i :: a + |r| <= i < |s| ==> IsSpace(s[i]))
  {
    var a := |s| - |l|;
    assert s[a..a + |r|] == r;
    assert forall i :: a + |r| <= i < |s| ==> s[i] == l[i - a];
    if r != [] {
      assert r[0] == l[0];
    }
  }

  /** Stripping twice strips nothing more. */
  lemma StripIdempotent(s: string)
    ensures Strip(Strip(s)) == Strip(s)
  {
    var r := Strip(s);
    assert LStrip(r) == r;
    assert RStrip(r) == r;
  }

  /** `str.lower()` on one character, for the ASCII letters. */
  function LowerChar(c: char): char {
    if 'A' <= c <= 'Z' then (c as int + 32) as char else c
  }

  /** `str.upper()` on one character, for the ASCII letters. */
  function UpperChar(c: char): char {
    if 'a' <= c <= 'z' then (c as int - 32) as char else c
  }

  /** `str.lower()`, character by character. */
  function Lower(s: string): (r: string)
    ensures |r| == |s|
  {
    if s == [] then [] else [LowerChar(s[0])] + Lower(s[1..])
  }

  /** `str.upper()`, character by character. */
  function Upper(s: string): (r: string)
    ensures |r| == |s|
  {
    if s == [] then [] else [UpperChar(s[0])] + Upper(s[1..])
  }

  lemma {:induction false} UpperAt(s: string, i: nat)
    requires i < |s|
    ensures Upper(s)[i] == UpperChar(s[i])
  {
    if i > 0 {
      UpperAt(s[1..], i - 1);
    }
  }

  lemma {:induction false} LowerAt(s: string, i: nat)
    requires i < |s|
    ensures Lower(s)[i] == LowerChar(s[i])
  {
    if i > 0 {
      LowerAt(s[1..], i - 1);
    }
  }

  /** `s.split(c)[0]`: the text before the first `c`, or all of `s`. */
  function BeforeFirst(s: string, c: char): (r: string)
    ensures c !in r
    ensures |r| <= |s| && r == s[..|r|]
    ensures |r| < |s| ==> s[|r|] == c
    ensures c !in s ==> r == s
  {
    if s == [] || s[0] == c then [] else [s[0]] + BeforeFirst(s[1..], c)
  }

  /** The text after the first `c` of `s`. */
  function AfterFirst(s: string, c: char): (r: string)
    requires c in s
    ensures s == BeforeFirst(s, c) + [c] + r
  {
    s[|BeforeFirst(s, c)| + 1..]
  }

  /** `s.split(c)[-1]`: the text after the last `c`, or all of `s`. */
  function LastField(s: string, c: char): (r: string)
    ensures c !in r
    ensures |r| <= |s| && r == s[|s| - |r|..]
    ensures |r| < |s| ==> s[|s| - |r| - 1] == c
  {
    if s == [] || s[|s| - 1] == c then [] else LastField(s[..|s| - 1], c) + [s[|s| - 1]]
  }

  /** `sep.join(parts)`. */
  function Join(sep: string, parts: seq<string>): string {
    if parts == [] then []
    else if |parts| == 1 then parts[0]
    else parts[0] + sep + Join(sep, parts[1..])
  }

  /** Where the three pieces of `a + b + c` sit. */
  lemma Pieces(a: string, b: string, c: string)
    ensures |a + b + c| == |a| + |b| + |c|
    ensures (a + b + c)[..|a|] == a
    ensures (a + b + c)[|a|..|a| + |b|] == b
    ensures (a + b + c)[|a| + |b|..] == c
  {
    var r := a + b + c;
    assert r[..|a|] == a;
    assert r[|a|..|a| + |b|] == b;
    assert r[|a| + |b|..] == c;
  }

  /** `a + b` in front of `c + d` in front of `e`. */
  lemma Frame(a: string, b: string, c: string, d: string, e: string)
    ensures |a + b + c + d + e| == |a| + |b| + |c| + |d| + |e|
    ensures (a + b + c + d + e)[..|a| + |b|] == a + b
    ensures (a + b + c + d + e)[|a| + |b|..|a| + |b| + |c| + |d|] == c + d
    ensures (a + b + c + d + e)[|a| + |b| + |c| + |d|..] == e
  {
    assert a + b + c + d + e == (a + b) + (c + d) + e;
    Pieces(a + b, c + d, e);
  }

  /** A slice of the middle piece of `p + c + q`. */
  lemma InnerSlice(p: string, c: string, q: string, m: nat, n: nat)
    requires m <= n <= |c|
    ensures (p + c + q)[|p| + m..|p| + n] == c[m..n]
  {
    var r := p + c + q;
    assert forall k | 0 <= k < n - m :: r[|p| + m..|p| + n][k] == c[m..n][k];
  }

  /** The texts `f` renders for `xs`, concatenated in order (a string built up with `+=`). */
  function Concat<T>(xs: seq<T>, f: T -> string): string {
    if xs == [] then [] else Concat(xs[..|xs| - 1], f) + f(xs[|xs| - 1])
  }

  /** The text rendered for `xs[i]` sits right after the text of the elements before it. */
  lemma {:induction false} ConcatAt<T>(xs: seq<T>, f: T -> string, i: nat)
    requires i < |xs|
    ensures |Concat(xs[..i], f)| + |f(xs[i])| <= |Concat(xs, f)|
    ensures Concat(xs, f)[|Concat(xs[..i], f)|..|Concat(xs[..i], f)| + |f(xs[i])|] == f(xs[i])
    ensures Concat(xs, f)[..|Concat(xs[..i], f)|] == Concat(xs[..i], f)
  {
    var n := |xs| - 1;
    assert xs[..n + 1] == xs;
    if i < n {
      ConcatAt(xs[..n], f, i);
      assert xs[..n][..i] == xs[..i] && xs[..n][i] == xs[i];
      ConcatPrefix(xs, f, n);
    }
  }

  /** Where the text rendered for `xs[i]` sits in `p + Concat(xs, f) + q`. */
  lemma ConcatFrame<T>(p: string, xs: seq<T>, f: T -> string, q: string, i: nat)
    requires i < |xs|
    ensures var off := |p| + |Concat(xs[..i], f)|;
            off + |f(xs[i])| <= |p + Concat(xs, f) + q| &&
            (p + Concat(xs, f) + q)[off..off + |f(xs[i])|] == f(xs[i])
  {
    ConcatAt(xs, f, i);
    var m := |Concat(xs[..i], f)|;
    InnerSlice(p, Concat(xs, f), q, m, m + |f(xs[i])|);
  }

  /** Regrouping a text built from pieces. */
  lemma Regroup(h: string, a: string, l: string, b: string, q: string)
    ensures h + (a + l + b) + q == h + a + l + b + q
  {
  }

  /** In a text `h + Concat(xs, f) + q`, element `i`'s text stands between those before and after it. */
  lemma SplitBetween<T>(h: string, xs: seq<T>, f: T -> string, q: string, i: nat)
    requires i < |xs|
    ensures h + Concat(xs, f) + q == h + Concat(xs[..i], f) + f(xs[i]) + Concat(xs[i + 1..], f) + q
  {
    ConcatSplit(xs, f, i);
    Regroup(h, Concat(xs[..i], f), f(xs[i]), Concat(xs[i + 1..], f), q);
  }

  /** The text for `a + b` is the text for `a` followed by the text for `b`. */
  lemma {:induction false} ConcatAppend<T>(a: seq<T>, b: seq<T>, f: T -> string)
    ensures Concat(a + b, f) == Concat(a, f) + Concat(b, f)
    decreases |b|
  {
    if b == [] {
      assert a + b == a;
    } else {
      var n := |b| - 1;
      assert (a + b)[..|a + b| - 1] == a + b[..n];
      ConcatAppend(a, b[..n], f);
    }
  }

  /** The text for `xs` is the text before element `i`, the text for element `i`, and the text after it. */
  lemma ConcatSplit<T>(xs: seq<T>, f: T -> string, i: nat)
    requires i < |xs|
    ensures Concat(xs, f) == Concat(xs[..i], f) + f(xs[i]) + Concat(xs[i + 1..], f)
  {
    var before, x, after := xs[..i], xs[i], xs[i + 1..];
    SplitAt(xs, i);
    ConcatAppend(before, [x] + after, f);
    ConcatAppend([x], after, f);
    ConcatSingle(x, f);
    Associate(Concat(before, f), f(x), Concat(after, f));
  }

  lemma SplitAt<T>(xs: seq<T>, i: nat)
    requires i < |xs|
    ensures xs == xs[..i] + ([xs[i]] + xs[i + 1..])
  {
  }

  lemma Associate<T>(a: seq<T>, b: seq<T>, c: seq<T>)
    ensures a + (b + c) == a + b + c
  {
  }

  lemma ConcatSingle<T>(x: T, f: T -> string)
    ensures Concat([x], f) == f(x)
  {
    assert [x][..0] == [];
  }

  /** Appending the text for one more element. */
  lemma ConcatStep<T>(xs: seq<T>, f: T -> string, i: nat)
    requires i < |xs|
    ensures Concat(xs[..i + 1], f) == Concat(xs[..i], f) + f(xs[i])
  {
    assert xs[..i + 1][..i] == xs[..i];
  }

  lemma ConcatPrefix<T>(xs: seq<T>, f: T -> string, n: nat)
    requires n == |xs| - 1
    ensures Concat(xs, f) == Concat(xs[..n], f) + f(xs[n])
  {
  }

  function Spaces(n: nat): (r: string)
    ensures |r| == n && forall i :: 0 <= i < n ==> r[i] == ' '
  {
    if n == 0 then [] else [' '] + Spaces(n - 1)
  }

  /** The format spec `{s:<width}`: `s` padded on the right with spaces. */
  function PadRight(s: string, width: nat): (r: string)
    ensures |r| == if |s| < width then width else |s|
    ensures r[..|s|] == s
    ensures forall i :: |s| <= i < |r| ==> r[i] == ' '
  {
    if |s| < width then s + Spaces(width - |s|) else s
  }

  predicate IsDigit(c: char) {
    '0' <= c <= '9'
  }

  /** Decimal formatting of a non-negative int, as `f"{n}"` does. */
  function NatToString(n: nat): (r: string)
    ensures r != [] && forall i :: 0 <= i < |r| ==> IsDigit(r[i])
    ensures r[0] == '0' ==> n == 0
  {
    if n < 10 then [(n + '0' as int) as char]
    else NatToString(n / 10) + [(n % 10 + '0' as int) as char]
  }

  /** The value of a string of decimal digits. */
  function DecimalValue(s: string): nat
    requires forall i :: 0 <= i < |s| ==> IsDigit(s[i])
  {
    if s == [] then 0
    else
      var d := s[|s| - 1];
      assert IsDigit(d);
      DecimalValue(s[..|s| - 1]) * 10 + (d as int - '0' as int)
  }

  /** Reading back the decimal text gives the number. */
  lemma {:induction false} DecimalRoundTrip(n: nat)
    ensures DecimalValue(NatToString(n)) == n
  {
    if n >= 10 {
      var r := NatToString(n);
      assert r[..|r| - 1] == NatToString(n / 10);
      DecimalRoundTrip(n / 10);
    }
  }
}
