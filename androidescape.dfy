/**
 * `escape_android_string`: the seven `str.replace` calls, in their order,
 * that turn a translation into text Android's resource compiler accepts.
 */
module AndroidEscape {
  import opened PyStr

  /** `"` escaped for Android, written out because the string literal needs it. */
  const Quote: string := ['"']

  /** The seven replacements as (pattern, replacement) pairs, in the order applied. */
  const Steps: seq<(string, string)> := [
    ("'", "\\'"),
    ("&quot;", Quote),
    (Quote, ['\\', '"']),
    ("&lt;b&gt;", "<b>"),
    ("&lt;/b&gt;", "</b>"),
    ("&lt;/br&gt;", "\\n"),
    ("<br/>", "\\n")
  ]

  /** The text after the first `n` replacements. */
  function ApplySteps(s: string, n: nat): string
    requires n <= |Steps|
  {
    if n == 0 then s
    else
      assert Steps[n - 1].0 != [];
      Replace(ApplySteps(s, n - 1), Steps[n - 1].0, Steps[n - 1].1)
  }

  function EscapeAndroidString(s: string): string {
    ApplySteps(s, |Steps|)
  }

  /** Text that holds none of the patterns passes through unchanged. */
  lemma {:induction false} EscapePlain(s: string)
    requires forall k | 0 <= k < |Steps| :: !Contains(s, Steps[k].0)
    ensures EscapeAndroidString(s) == s
  {
    forall n | 0 <= n <= |Steps| ensures ApplySteps(s, n) == s {
      PlainSteps(s, n);
    }
  }

  lemma {:induction false} PlainSteps(s: string, n: nat)
    requires n <= |Steps|
    requires forall k | 0 <= k < |Steps| :: !Contains(s, Steps[k].0)
    ensures ApplySteps(s, n) == s
  {
    if n > 0 {
      PlainSteps(s, n - 1);
      assert !Contains(s, Steps[n - 1].0);
    }
  }

  /** Once step `k` has escaped `c`, the later steps keep it escaped. */
  lemma {:induction false} StaysEscaped(s: string, c: char, k: nat, n: nat)
    requires k <= n <= |Steps|
    requires EscapedIn(ApplySteps(s, k), c, false)
    requires forall j | k <= j < |Steps| :: c !in Steps[j].0 && '\\' !in Steps[j].0 && c !in Steps[j].1
    ensures EscapedIn(ApplySteps(s, n), c, false)
    decreases n - k
  {
    if k < n {
      ReplaceKeepsEscaped(ApplySteps(s, k), Steps[k].0, Steps[k].1, c, false);
      StaysEscaped(s, c, k + 1, n);
    }
  }

  /** Every apostrophe in the output is preceded by a backslash. */
  lemma ApostrophesEscaped(s: string)
    ensures EscapedIn(EscapeAndroidString(s), '\'', false)
  {
    ReplaceEscapes(s, '\'');
    FirstStep(s);
    ApostropheUntouched();
    StaysEscaped(s, '\'', 1, |Steps|);
  }

  lemma FirstStep(s: string)
    ensures ApplySteps(s, 1) == Replace(s, ['\''], ['\\', '\''])
  {
    assert Steps[0] == ("'", "\\'");
  }

  /** The steps after the first neither match nor produce an apostrophe or a backslash. */
  lemma ApostropheUntouched()
    ensures forall j | 1 <= j < |Steps| :: '\'' !in Steps[j].0 && '\\' !in Steps[j].0 && '\'' !in Steps[j].1
  {
  }

  /**
   * Every double quote in the output is preceded by a backslash, including
   * those `&quot;` turned into.
   */
  lemma QuotesEscaped(s: string)
    ensures EscapedIn(EscapeAndroidString(s), '"', false)
  {
    ReplaceEscapes(ApplySteps(s, 2), '"');
    ThirdStep(s);
    QuoteUntouched();
    StaysEscaped(s, '"', 3, |Steps|);
  }

  lemma ThirdStep(s: string)
    ensures ApplySteps(s, 3) == Replace(ApplySteps(s, 2), ['"'], ['\\', '"'])
  {
    assert Steps[2] == (['"'], ['\\', '"']);
  }

  /** The steps after the third neither match nor produce a double quote, nor match a backslash. */
  lemma QuoteUntouched()
    ensures forall j | 3 <= j < |Steps| :: '"' !in Steps[j].0 && '\\' !in Steps[j].0 && '"' !in Steps[j].1
  {
  }

  /** No `<br/>` survives: every one becomes the two characters `\n`. */
  lemma NoLineBreakTag(s: string)
    ensures !Contains(EscapeAndroidString(s), "<br/>")
  {
    ReplaceRemoves(ApplySteps(s, 6), "<br/>", "\\n");
  }

  /**
   * The pattern of step `k` is gone for good: its own step removes it, and
   * no later replacement holds its first character or starts with one of
   * its characters.
   */
  lemma EntityGone(s: string, k: nat)
    requires k < |Steps| && Steps[k].1 != []
    requires Steps[k].0[0] !in Steps[k].1 && Steps[k].1[0] !in Steps[k].0
    requires forall j | k < j < |Steps| :: Steps[j].1 != [] && Steps[k].0[0] !in Steps[j].1 && Steps[j].1[0] !in Steps[k].0
    ensures !Contains(EscapeAndroidString(s), Steps[k].0)
  {
    ReplaceRemoves(ApplySteps(s, k), Steps[k].0, Steps[k].1);
    StaysAbsent(s, Steps[k].0, k + 1, |Steps|);
  }

  /** Once `q` is absent after step `k`, later replacements that cannot start or continue it keep it absent. */
  lemma {:induction false} StaysAbsent(s: string, q: string, k: nat, n: nat)
    requires k <= n <= |Steps| && q != []
    requires !Contains(ApplySteps(s, k), q)
    requires forall j | k <= j < |Steps| :: Steps[j].1 != [] && q[0] !in Steps[j].1 && Steps[j].1[0] !in q
    ensures !Contains(ApplySteps(s, n), q)
    decreases n - k
  {
    if k < n {
      StaysAbsent(s, q, k, n - 1);
      var step := Steps[n - 1];
      ReplaceKeepsAbsent(ApplySteps(s, n - 1), step.0, step.1, q);
    }
  }

  /** No `&quot;` is left: it becomes `"`, which the next step escapes. */
  lemma NoQuotEntity(s: string)
    ensures !Contains(EscapeAndroidString(s), "&quot;")
  {
    EntityGone(s, 1);
  }

  /** No `&lt;b&gt;` is left: every one becomes `<b>`. */
  lemma NoBoldOpenEntity(s: string)
    ensures !Contains(EscapeAndroidString(s), "&lt;b&gt;")
  {
    EntityGone(s, 3);
  }

  /** No `&lt;/b&gt;` is left: every one becomes `</b>`. */
  lemma NoBoldCloseEntity(s: string)
    ensures !Contains(EscapeAndroidString(s), "&lt;/b&gt;")
  {
    EntityGone(s, 4);
  }

  /** No `&lt;/br&gt;` is left: every one becomes the two characters `\n`. */
  lemma NoBreakEntity(s: string)
    ensures !Contains(EscapeAndroidString(s), "&lt;/br&gt;")
  {
    EntityGone(s, 5);
  }

  /** `It's` becomes `It\'s`. */
  lemma EscapeExample()
    ensures EscapeAndroidString("It's") == "It\\'s"
  {
    ApostropheEscaped();
    LaterStepsPlain();
    FirstStep("It's");
    PlainFrom("It\\'s", "It's", 1, |Steps|);
  }

  lemma ApostropheEscaped()
    ensures Replace("It's", "'", "\\'") == "It\\'s"
  {
    var p, r := "'", "\\'";
    ReplaceKeeps('s', "", p, r);
    ReplaceHits("s", p, r);
    ReplaceKeeps('t', "'s", p, r);
    ReplaceKeeps('I', "t's", p, r);
    assert ['I'] + (['t'] + (r + (['s'] + ""))) == "It\\'s";
  }

  /** A first character that is not the one-character pattern is copied. */
  lemma ReplaceKeeps(c: char, t: string, p: string, r: string)
    requires |p| == 1 && c != p[0]
    ensures Replace([c] + t, p, r) == [c] + Replace(t, p, r)
  {
    assert ([c] + t)[..1] == [c] != p;
    assert ([c] + t)[1..] == t;
  }

  /** A leading occurrence of the pattern is replaced. */
  lemma ReplaceHits(t: string, p: string, r: string)
    requires p != []
    ensures Replace(p + t, p, r) == r + Replace(t, p, r)
  {
    assert (p + t)[..|p|] == p;
    assert (p + t)[|p|..] == t;
  }

  /** `&quot;` first becomes `"` and then, one step later, `\"`. */
  lemma QuotEntityExample()
    ensures EscapeAndroidString("&quot;") == ['\\', '"']
  {
    var s := "&quot;";
    ContainsChar(s, '\'');
    FirstStep(s);
    SecondStep(s);
    ReplaceHits("", s, Quote);
    assert s + "" == s && Quote + "" == Quote;
    ThirdStep(s);
    ReplaceHits("", Quote, ['\\', '"']);
    assert ['\\', '"'] + "" == ['\\', '"'];
    EscapedQuotePlain();
    PlainFrom(['\\', '"'], s, 3, |Steps|);
  }

  lemma SecondStep(s: string)
    ensures ApplySteps(s, 2) == Replace(ApplySteps(s, 1), "&quot;", Quote)
  {
    assert Steps[1] == ("&quot;", Quote);
  }

  /** `\"` holds no pattern of the steps after the third. */
  lemma EscapedQuotePlain()
    ensures forall k | 3 <= k < |Steps| :: !Contains(['\\', '"'], Steps[k].0)
  {
    var t := ['\\', '"'];
    forall k | 3 <= k < |Steps| ensures !Contains(t, Steps[k].0) {
      assert forall i | 0 <= i < |t| :: t[i] != '&' && t[i] != '<';
      assert Steps[k].0[0] == '&' || Steps[k].0[0] == '<';
    }
  }

  /** `It\'s` holds no pattern of the steps after the first. */
  lemma LaterStepsPlain()
    ensures forall k | 1 <= k < |Steps| :: !Contains("It\\'s", Steps[k].0)
  {
    var t := "It\\'s";
    forall k | 1 <= k < |Steps| ensures !Contains(t, Steps[k].0) {
      assert forall i | 0 <= i < |t| :: t[i] != '"' && t[i] != '&' && t[i] != '<';
      assert Steps[k].0[0] == '"' || Steps[k].0[0] == '&' || Steps[k].0[0] == '<';
    }
  }

  lemma {:induction false} PlainFrom(t: string, s: string, k: nat, n: nat)
    requires 1 <= k <= n <= |Steps| && ApplySteps(s, k) == t
    requires forall j | k <= j < |Steps| :: !Contains(t, Steps[j].0)
    ensures ApplySteps(s, n) == t
    decreases n - k
  {
    if k < n {
      PlainFrom(t, s, k, n - 1);
    }
  }
}
