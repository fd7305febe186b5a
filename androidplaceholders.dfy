/**
 * `convert_placeholders` of the Android converter: every `{name}` (a
 * non-empty run of characters other than `}` between braces, as the regular
 * expression `\{([^}]+)\}` finds them from left to right) becomes a
 * positional format specifier `%k$d` for the numeric names and `%k$s` for
 * the others, where k is one more than the number of distinct names the
 * same expression finds in the text before that occurrence.
 */
module AndroidPlaceholders {
  import opened Wrappers
  import opened PyStr

  /** The variables Android formats as integers. */
  const NumericVariables: seq<string> := ["count", "found_count", "total_count"]

  /** The first `}` at or after index `i`. */
  function CloseFrom(s: string, i: nat): (r: Option<nat>)
    ensures r.Some? ==> i <= r.value < |s| && s[r.value] == '}'
    decreases |s| - i
  {
    if i >= |s| then None
    else if s[i] == '}' then Some(i)
    else CloseFrom(s, i + 1)
  }

  /** No `}` comes between `i` and the one `CloseFrom` finds, nor after `i` when it finds none. */
  lemma {:induction false} CloseFromFirst(s: string, i: nat)
    ensures CloseFrom(s, i).Some? ==> forall k | i <= k < CloseFrom(s, i).value :: s[k] != '}'
    ensures CloseFrom(s, i).None? ==> forall k | i <= k < |s| :: s[k] != '}'
    decreases |s| - i
  {
    if i < |s| && s[i] != '}' {
      CloseFromFirst(s, i + 1);
    }
  }

  /**
   * Where the placeholder that starts at index `i` ends (exclusive), if one
   * starts there: a `{`, at least one character other than `}`, then `}`.
   */
  function MatchAt(s: string, i: nat): (r: Option<nat>)
    ensures r.Some? ==> i + 3 <= r.value <= |s|
  {
    if i < |s| && s[i] == '{' then
      var j := CloseFrom(s, i + 1);
      if j.Some? && j.value > i + 1 then Some(j.value + 1) else None
    else None
  }

  /**
   * A placeholder starts at `i` exactly when a `{` there is followed by at
   * least one character and then the first `}`; the match ends just after it.
   */
  lemma MatchAtMeaning(s: string, i: nat)
    ensures MatchAt(s, i).Some? ==>
              var e := MatchAt(s, i).value;
              s[i] == '{' && s[e - 1] == '}' && forall k | i < k < e - 1 :: s[k] != '}'
    ensures MatchAt(s, i).None? ==>
              forall j | i + 2 <= j < |s| :: !(s[i] == '{' && s[j] == '}' && forall k | i < k < j :: s[k] != '}')
  {
    if i < |s| && s[i] == '{' {
      var j := CloseFrom(s, i + 1);
      CloseFromFirst(s, i + 1);
      if j.Some? && j.value == i + 1 {
        assert s[i + 1] == '}';
      }
    }
  }

  /** The scan resumes after the placeholder at `i`, or at the next character. */
  function Next(s: string, i: nat): (r: nat)
    ensures i < r && (i < |s| ==> r <= |s|)
  {
    match MatchAt(s, i) case Some(e) => e case None => i + 1
  }

  /** Cutting the text at `m` hides every `}` from `m` on. */
  lemma {:induction false} CloseFromPrefix(s: string, j: nat, m: nat)
    requires j <= m <= |s|
    ensures CloseFrom(s[..m], j) == if CloseFrom(s, j).Some? && CloseFrom(s, j).value < m then CloseFrom(s, j) else None
    decreases m - j
  {
    if j < m {
      assert s[..m][j] == s[j];
      if s[j] != '}' {
        CloseFromPrefix(s, j + 1, m);
      }
    }
  }

  /** A placeholder ending inside a prefix is matched there too; no other is. */
  lemma MatchAtPrefix(s: string, p: nat, m: nat)
    requires p < m <= |s|
    ensures MatchAt(s[..m], p) == if MatchAt(s, p).Some? && MatchAt(s, p).value <= m then MatchAt(s, p) else None
  {
    assert s[..m][p] == s[p];
    CloseFromPrefix(s, p + 1, m);
  }

  // The text is read as a sequence of tokens: a placeholder where the
  // expression matches, a literal character everywhere else.

  datatype Token = Literal(c: char) | Placeholder(name: string)

  /** The token the scan reads at index `i`. */
  function TokenAt(s: string, i: nat): Token
    requires i < |s|
  {
    match MatchAt(s, i)
    case Some(e) => Placeholder(s[i + 1..e - 1])
    case None => Literal(s[i])
  }

  /** `re.findall(r'\{([^}]+)\}', ...)` as the scan continues from index `i`. */
  function FindAllFrom(s: string, i: nat): seq<string>
    decreases |s| - i
  {
    if i >= |s| then []
    else Found(s, i) + FindAllFrom(s, Next(s, i))
  }

  /** The name the scan finds at index `i`, if a placeholder starts there. */
  function Found(s: string, i: nat): seq<string>
    requires i < |s|
  {
    if TokenAt(s, i).Placeholder? then [TokenAt(s, i).name] else []
  }

  function FindAll(s: string): seq<string> {
    FindAllFrom(s, 0)
  }

  /** `set(names)`. */
  function NameSet(names: seq<string>): set<string> {
    set n | n in names
  }

  /** `f"%{k}$d"` or `f"%{k}$s"`. */
  function Specifier(name: string, k: nat): string {
    "%" + NatToString(k) + (if name in NumericVariables then "$d" else "$s")
  }

  /**
   * What one token becomes: a literal is kept, a placeholder becomes the
   * specifier numbered one more than the count of distinct names `seen`.
   */
  function Emit(t: Token, seen: set<string>): string {
    match t
    case Literal(c) => [c]
    case Placeholder(n) => Specifier(n, |seen| + 1)
  }

  /**
   * `re.sub` with the callback, continuing the scan at index `i`: the
   * callback counts the distinct names `findall` sees in the text before
   * the match.
   */
  function SubFrom(s: string, i: nat): string
    decreases |s| - i
  {
    if i >= |s| then []
    else Emit(TokenAt(s, i), NameSet(FindAll(s[..i]))) + SubFrom(s, Next(s, i))
  }

  function ConvertPlaceholders(s: string): string {
    SubFrom(s, 0)
  }

  function TokensFrom(s: string, i: nat): seq<Token>
    decreases |s| - i
  {
    if i >= |s| then [] else [TokenAt(s, i)] + TokensFrom(s, Next(s, i))
  }

  function Tokens(s: string): seq<Token> {
    TokensFrom(s, 0)
  }

  /** The text a token sequence was read from. */
  function Render(ts: seq<Token>): string {
    if ts == [] then []
    else (match ts[0] case Literal(c) => [c] case Placeholder(n) => "{" + n + "}") + Render(ts[1..])
  }

  /**
   * The reference reading: walk the tokens once, keeping the set of names
   * already numbered.
   */
  function Positional(ts: seq<Token>, seen: set<string>): string {
    if ts == [] then []
    else Emit(ts[0], seen) + Positional(ts[1..], if ts[0].Placeholder? then seen + {ts[0].name} else seen)
  }

  /** Reading the tokens back gives the text: the split loses nothing. */
  lemma {:induction false} RenderTokensFrom(s: string, i: nat)
    requires i <= |s|
    ensures Render(TokensFrom(s, i)) == s[i..]
    decreases |s| - i
  {
    if i < |s| {
      var e := Next(s, i);
      MatchAtMeaning(s, i);
      RenderTokensFrom(s, e);
      if MatchAt(s, i).Some? {
        BracedSlice(s, i, e);
      } else {
        assert s[i..] == [s[i]] + s[i + 1..];
      }
    }
  }

  lemma BracedSlice(s: string, i: nat, e: nat)
    requires i + 2 <= e <= |s| && s[i] == '{' && s[e - 1] == '}'
    ensures s[i..] == "{" + s[i + 1..e - 1] + "}" + s[e..]
  {
    assert s[i..] == [s[i]] + s[i + 1..e - 1] + [s[e - 1]] + s[e..];
  }

  /** Every placeholder name is non-empty and holds no `}`. */
  lemma {:induction false} PlaceholderNames(s: string, i: nat, k: nat)
    requires k < |TokensFrom(s, i)| && TokensFrom(s, i)[k].Placeholder?
    ensures TokensFrom(s, i)[k].name != [] && '}' !in TokensFrom(s, i)[k].name
    decreases |s| - i
  {
    if k > 0 {
      PlaceholderNames(s, Next(s, i), k - 1);
    } else {
      MatchAtMeaning(s, i);
      var name := s[i + 1..Next(s, i) - 1];
      assert forall x | 0 <= x < |name| :: name[x] == s[i + 1 + x];
    }
  }

  /** The scan starting at `p` visits index `m`. */
  predicate Lands(s: string, p: nat, m: nat)
    decreases m - p
  {
    p == m || (p < m && p < |s| && Next(s, p) <= m && Lands(s, Next(s, p), m))
  }

  /** A token that ends inside a prefix reads the same there. */
  lemma TokenAtPrefix(s: string, p: nat, m: nat)
    requires p < m <= |s| && Next(s, p) <= m
    ensures TokenAt(s[..m], p) == TokenAt(s, p) && Next(s[..m], p) == Next(s, p)
  {
    MatchAtPrefix(s, p, m);
    if MatchAt(s, p).Some? {
      assert s[..m][p + 1..Next(s, p) - 1] == s[p + 1..Next(s, p) - 1];
    } else {
      assert s[..m][p] == s[p];
    }
  }

  /** Scanning a prefix that ends where the scan lands gives the names found so far. */
  lemma {:induction false} FindAllSplit(s: string, p: nat, m: nat)
    requires p <= m <= |s| && Lands(s, p, m)
    ensures FindAllFrom(s, p) == FindAllFrom(s[..m], p) + FindAllFrom(s, m)
    decreases m - p
  {
    if p < m {
      var n := Next(s, p);
      assert n <= m && Lands(s, n, m);
      FindAllSplit(s, n, m);
      FindAllPrefixStep(s, p, m);
      FindAllUnfold(s, p);
      Associate(Found(s, p), FindAllFrom(s[..m], n), FindAllFrom(s, m));
    } else {
      assert FindAllFrom(s[..m], p) == [];
    }
  }

  lemma FindAllUnfold(s: string, p: nat)
    requires p < |s|
    ensures FindAllFrom(s, p) == Found(s, p) + FindAllFrom(s, Next(s, p))
  {
  }

  /** In a prefix that holds the whole token at `p`, the scan from `p` finds that token's name first. */
  lemma FindAllPrefixStep(s: string, p: nat, m: nat)
    requires p < m <= |s| && Next(s, p) <= m
    ensures FindAllFrom(s[..m], p) == Found(s, p) + FindAllFrom(s[..m], Next(s, p))
  {
    TokenAtPrefix(s, p, m);
    assert Found(s[..m], p) == Found(s, p);
    FindAllUnfold(s[..m], p);
  }

  /** A landing point of the scan is still one in any longer prefix. */
  lemma {:induction false} LandsPrefix(s: string, p: nat, i: nat, m: nat)
    requires p <= i <= m <= |s| && Lands(s, p, i)
    ensures Lands(s[..m], p, i)
    decreases i - p
  {
    if p < i {
      TokenAtPrefix(s, p, m);
      LandsPrefix(s, Next(s, p), i, m);
    }
  }

  /** One more step of the scan keeps it landing. */
  lemma {:induction false} LandsStep(s: string, p: nat, i: nat)
    requires p <= i < |s| && Lands(s, p, i)
    ensures Lands(s, p, Next(s, i))
    decreases i - p
  {
    if p < i {
      LandsStep(s, Next(s, p), i);
    }
  }

  /** The names found in the text up to the scan's next landing point. */
  lemma FindAllAdvance(s: string, i: nat)
    requires i < |s| && Lands(s, 0, i)
    ensures FindAll(s[..Next(s, i)]) == FindAll(s[..i]) + Found(s, i)
  {
    var m := Next(s, i);
    var t := s[..m];
    LandsPrefix(s, 0, i, m);
    FindAllSplit(t, 0, i);
    assert t[..i] == s[..i];
    FindAllLast(s, i, t);
  }

  /** The token at `i` is the last one of the prefix it ends. */
  lemma FindAllLast(s: string, i: nat, t: string)
    requires i < |s| && t == s[..Next(s, i)]
    ensures FindAllFrom(t, i) == Found(s, i)
  {
    var m := Next(s, i);
    TokenAtPrefix(s, i, m);
    assert Found(t, i) == Found(s, i);
    assert FindAllFrom(t, m) == [];
  }

  lemma NameSetAppend(a: seq<string>, b: seq<string>)
    ensures NameSet(a + b) == NameSet(a) + NameSet(b)
  {
  }

  /** From any landing point the conversion agrees with the reference reading. */
  lemma {:induction false} SubFromPositional(s: string, i: nat)
    requires i <= |s| && Lands(s, 0, i)
    ensures SubFrom(s, i) == Positional(TokensFrom(s, i), NameSet(FindAll(s[..i])))
    decreases |s| - i
  {
    if i < |s| {
      var seen := NameSet(FindAll(s[..i]));
      var ts := TokensFrom(s, i);
      assert ts[0] == TokenAt(s, i) && ts[1..] == TokensFrom(s, Next(s, i));
      FindAllAdvance(s, i);
      NameSetAppend(FindAll(s[..i]), Found(s, i));
      assert NameSet(FindAll(s[..Next(s, i)])) == if ts[0].Placeholder? then seen + {ts[0].name} else seen;
      LandsStep(s, 0, i);
      SubFromPositional(s, Next(s, i));
    }
  }

  /**
   * The conversion numbers each placeholder by one more than the count of
   * distinct names before it; a repeated name gets a new number.
   */
  lemma ConvertIsPositional(s: string)
    ensures ConvertPlaceholders(s) == Positional(Tokens(s), {})
  {
    assert s[..0] == [];
    assert FindAll([]) == [];
    SubFromPositional(s, 0);
  }

  lemma {:induction false} PositionalPlain(ts: seq<Token>, seen: set<string>)
    requires forall k :: 0 <= k < |ts| ==> ts[k].Literal?
    ensures Positional(ts, seen) == Render(ts)
  {
    if ts != [] {
      PositionalPlain(ts[1..], seen);
    }
  }

  /** Text without a placeholder passes through unchanged. */
  lemma ConvertPlain(s: string)
    requires forall k :: 0 <= k < |Tokens(s)| ==> Tokens(s)[k].Literal?
    ensures ConvertPlaceholders(s) == s
  {
    ConvertIsPositional(s);
    PositionalPlain(Tokens(s), {});
    RenderTokensFrom(s, 0);
  }

  /** A repeated name is numbered again: `{a}{a}` becomes `%1$s%2$s`. */
  lemma RepeatedNameRenumbered()
    ensures ConvertPlaceholders("{a}{a}") == "%1$s%2$s"
  {
    var s := "{a}{a}";
    RepeatedTokens();
    RepeatedSeen();
    RepeatedEmits();
    assert s[..0] == [];
    assert NameSet(FindAll([])) == {};
    assert SubFrom(s, 0) == "%1$s" + SubFrom(s, 3);
    assert SubFrom(s, 3) == "%2$s" + SubFrom(s, 6);
  }

  /** The placeholder `a` becomes `%1$s` with nothing seen and `%2$s` once `a` is seen. */
  lemma RepeatedEmits()
    ensures Emit(Placeholder("a"), {}) == "%1$s" && Emit(Placeholder("a"), {"a"}) == "%2$s"
  {
    assert "a" !in NumericVariables;
    assert NatToString(1) == "1" && NatToString(2) == "2";
    assert |{"a"}| == 1;
  }

  /** `{a}{a}` reads as two placeholders named `a`. */
  lemma RepeatedTokens()
    ensures TokenAt("{a}{a}", 0) == Placeholder("a") && Next("{a}{a}", 0) == 3
    ensures TokenAt("{a}{a}", 3) == Placeholder("a") && Next("{a}{a}", 3) == 6
  {
    var s := "{a}{a}";
    assert CloseFrom(s, 1) == Some(2);
    assert CloseFrom(s, 4) == Some(5);
    assert MatchAt(s, 0) == Some(3) && s[1..2] == "a";
    assert MatchAt(s, 3) == Some(6) && s[4..5] == "a";
  }

  /** Before the second placeholder, the name `a` has been seen. */
  lemma RepeatedSeen()
    ensures NameSet(FindAll("{a}{a}"[..3])) == {"a"}
  {
    var s := "{a}{a}";
    assert s[..3] == "{a}";
    assert CloseFrom("{a}", 1) == Some(2);
    assert MatchAt("{a}", 0) == Some(3) && "{a}"[1..2] == "a";
    assert FindAllFrom("{a}", 3) == [];
    assert Found("{a}", 0) == ["a"];
    assert FindAll(s[..3]) == ["a"];
    assert NameSet(["a"]) == {"a"};
  }

  /** A numeric name gets `$d`: `{count}` becomes `%1$d`. */
  lemma NumericSpecifier()
    ensures ConvertPlaceholders("{count}") == "%1$d"
  {
    var s := "{count}";
    assert CloseFrom(s, 1) == Some(6);
    assert MatchAt(s, 0) == Some(7) && s[1..6] == "count";
    assert s[..0] == [];
    assert NatToString(1) == "1";
  }
}
