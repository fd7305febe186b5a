/**
 * The desktop converter's translations side: the output-locale fallback
 * lookup, `generate_icu_pattern`, and the map `convert_xliff_to_json`
 * builds and writes to `{output_locale}/messages.json`.  `html.unescape`
 * and `json.dump` are parameters.
 */
module DesktopStrings {
  import opened Wrappers
  import opened PyStr
  import opened PyDict
  import opened Ordering
  import opened Errors
  import opened Xliff
  import opened SharedParse
  import opened Project

  /** `LOCALE_PATH_MAPPING`: the locales whose output directory is not their two-letter code. */
  const LocalePathMapping: Dict<string, string> := [
    ("en-US", "en"),
    ("kmr-TR", "kmr"),
    ("es-419", "es-419"),
    ("hy-AM", "hy-AM"),
    ("pt-BR", "pt-BR"),
    ("pt-PT", "pt-PT"),
    ("zh-CN", "zh-CN"),
    ("zh-TW", "zh-TW")
  ]

  /**
   * `LOCALE_PATH_MAPPING.get(locale, LOCALE_PATH_MAPPING.get(code, code))`:
   * the locale's own mapping, else the mapping of its two-letter code, else
   * the code itself.
   */
  function OutputLocale(locale: string, twoLetter: string): string {
    var byLocale := Get(LocalePathMapping, locale);
    if byLocale.Some? then byLocale.value
    else
      var byCode := Get(LocalePathMapping, twoLetter);
      if byCode.Some? then byCode.value else twoLetter
  }

  /** The lookup tries the locale first, then the code, then falls back to the code. */
  lemma OutputLocaleFallback(locale: string, twoLetter: string)
    ensures HasKey(LocalePathMapping, locale) ==> Some(OutputLocale(locale, twoLetter)) == Get(LocalePathMapping, locale)
    ensures !HasKey(LocalePathMapping, locale) && HasKey(LocalePathMapping, twoLetter) ==>
              Some(OutputLocale(locale, twoLetter)) == Get(LocalePathMapping, twoLetter)
    ensures !HasKey(LocalePathMapping, locale) && !HasKey(LocalePathMapping, twoLetter) ==>
              OutputLocale(locale, twoLetter) == twoLetter
  {
  }

  /**
   * Every mapped locale other than `en-US` and `kmr-TR` keeps its full
   * name as its directory.
   */
  lemma MappedLocalesKeepName(i: nat)
    requires 2 <= i < |LocalePathMapping|
    ensures OutputLocale(LocalePathMapping[i].0, "") == LocalePathMapping[i].0
  {
    MappingKeysDistinct();
    ValidGet(LocalePathMapping, i);
    MappedToSelf(i);
  }

  lemma MappedToSelf(i: nat)
    requires 2 <= i < |LocalePathMapping|
    ensures LocalePathMapping[i].1 == LocalePathMapping[i].0
  {
    var m := LocalePathMapping;
    assert forall j | 2 <= j < |m| :: m[j].1 == m[j].0;
  }

  /** The eight locales differ in their fourth character, so no key repeats. */
  lemma MappingKeysDistinct()
    ensures Valid(LocalePathMapping)
  {
    var m := LocalePathMapping;
    var tags := "U-4ABPCT";
    assert forall j | 0 <= j < |m| :: |m[j].0| > 3 && m[j].0[3] == tags[j];
    assert forall a, b | 0 <= a < b < |tags| :: tags[a] != tags[b];
  }

  lemma EnUsLocale()
    ensures OutputLocale("en-US", "en") == "en"
  {
    var m := LocalePathMapping;
    assert m[0] == ("en-US", "en");
    assert HasKey(m, "en-US");
    assert IndexOf(m, "en-US") == 0;
  }

  lemma Es419Locale()
    ensures OutputLocale("es-419", "es") == "es-419"
  {
    var m := LocalePathMapping;
    assert m[2] == ("es-419", "es-419");
    assert HasKey(m, "es-419");
    assert IndexOf(m, "es-419") == 2 by {
      assert m[0].0 != "es-419" && m[1].0 != "es-419";
    }
  }

  lemma UnmappedFrLocale()
    ensures OutputLocale("fr-FR", "fr") == "fr"
  {
    var m := LocalePathMapping;
    assert !HasKey(m, "fr-FR") by {
      forall j | 0 <= j < |m| ensures m[j].0 != "fr-FR" {
        assert m[j].0[0] != 'f';
      }
    }
    assert !HasKey(m, "fr") by {
      forall j | 0 <= j < |m| ensures m[j].0 != "fr" {
        assert m[j].0[0] != 'f';
      }
    }
  }

  /** `en-US` goes to `en`, `es-419` keeps its name, and an unmapped `fr-FR` goes to `fr`. */
  lemma OutputLocaleExamples()
    ensures OutputLocale("en-US", "en") == "en"
    ensures OutputLocale("es-419", "es") == "es-419"
    ensures OutputLocale("fr-FR", "fr") == "fr"
  {
    EnUsLocale();
    Es419Locale();
    UnmappedFrLocale();
  }

  /** The plural forms ICU understands; any other form is dropped. */
  const IcuForms: seq<string> := ["zero", "one", "two", "few", "many", "other", "exact", "fractional"]

  /** `f"{form} [{value}]"` with `value = html.unescape(v.replace('{count}', '#'))`. */
  function IcuPart(form: (string, string), unescape: string -> string): string {
    form.0 + " [" + unescape(Replace(form.1, "{count}", "#")) + "]"
  }

  /** The forms of a plural value that ICU understands, in insertion order. */
  function AllowedForms(forms: Dict<string, string>): (r: Dict<string, string>)
    ensures |r| <= |forms|
  {
    if forms == [] then []
    else
      var last := forms[|forms| - 1];
      AllowedForms(forms[..|forms| - 1]) + (if last.0 in IcuForms then [last] else [])
  }

  /** The parts for a run of allowed forms, one per form. */
  function Parts(forms: Dict<string, string>, unescape: string -> string): (r: seq<string>)
    ensures |r| == |forms|
  {
    seq(|forms|, i requires 0 <= i < |forms| => IcuPart(forms[i], unescape))
  }

  /** A plural value's ICU message: its allowed parts, space-separated. */
  function PluralPattern(forms: Dict<string, string>, unescape: string -> string): string {
    "{count, plural, " + Join(" ", Parts(AllowedForms(forms), unescape)) + "}"
  }

  /** `generate_icu_pattern`: an ICU plural message, or the unescaped plain text. */
  function IcuPattern(t: Translation, unescape: string -> string): string {
    match t
    case Plural(forms) => PluralPattern(forms, unescape)
    case Simple(text) => unescape(text)
  }

  lemma AllowedFormsStep(forms: Dict<string, string>, j: nat)
    requires j < |forms|
    ensures AllowedForms(forms[..j + 1]) == AllowedForms(forms[..j]) + (if forms[j].0 in IcuForms then [forms[j]] else [])
  {
    assert forms[..j + 1][..j] == forms[..j];
  }

  /** A form is emitted exactly when the value has it and ICU knows it. */
  lemma {:induction false} AllowedFormsMembers(forms: Dict<string, string>, f: (string, string))
    ensures f in AllowedForms(forms) <==> f in forms && f.0 in IcuForms
  {
    if forms != [] {
      var pre := forms[..|forms| - 1];
      AllowedFormsMembers(pre, f);
      assert forms == pre + [forms[|forms| - 1]];
    }
  }

  /** Filtering splits over concatenation, so the emitted forms keep their relative order. */
  lemma {:induction false} AllowedFormsAppend(a: Dict<string, string>, b: Dict<string, string>)
    ensures AllowedForms(a + b) == AllowedForms(a) + AllowedForms(b)
  {
    if b != [] {
      var pre := b[..|b| - 1];
      assert (a + b)[..|a + b| - 1] == a + pre;
      AllowedFormsAppend(a, pre);
    } else {
      assert a + b == a;
    }
  }

  /** A value whose forms are all ICU forms keeps all of them, in order. */
  lemma {:induction false} AllowedFormsAll(forms: Dict<string, string>)
    requires forall i :: 0 <= i < |forms| ==> forms[i].0 in IcuForms
    ensures AllowedForms(forms) == forms
  {
    if forms != [] {
      var pre := forms[..|forms| - 1];
      AllowedFormsAll(pre);
      assert forms == pre + [forms[|forms| - 1]];
    }
  }

  /** No allowed form at all gives the empty plural message. */
  lemma {:induction false} NoAllowedForms(forms: Dict<string, string>, unescape: string -> string)
    requires forall i :: 0 <= i < |forms| ==> forms[i].0 !in IcuForms
    ensures AllowedForms(forms) == []
    ensures PluralPattern(forms, unescape) == "{count, plural, }"
  {
    if forms != [] {
      NoAllowedForms(forms[..|forms| - 1], unescape);
    }
  }

  /** The text handed to `unescape` holds no `{count}` any more. */
  lemma CountReplaced(v: string)
    ensures !Contains(Replace(v, "{count}", "#"), "{count}")
  {
    ReplaceRemoves(v, "{count}", "#");
  }

  lemma ExampleAllowedForms()
    ensures AllowedForms([("one", "{count}"), ("bogus", "x"), ("other", "")]) == [("one", "{count}"), ("other", "")]
  {
    var forms := [("one", "{count}"), ("bogus", "x"), ("other", "")];
    assert forms[..2][..1] == [("one", "{count}")];
    assert "bogus" !in IcuForms;
    assert AllowedForms(forms[..1]) == [("one", "{count}")];
    assert AllowedForms(forms[..2]) == [("one", "{count}")];
  }

  lemma ExampleParts()
    ensures Parts([("one", "{count}"), ("other", "")], s => s) == ["one [#]", "other []"]
  {
    assert Replace("{count}", "{count}", "#") == "#" by {
      assert "{count}"[..7] == "{count}";
      assert "{count}"[7..] == [];
    }
    assert Replace("", "{count}", "#") == "";
    var ps := Parts([("one", "{count}"), ("other", "")], s => s);
    assert ps[0] == "one [#]";
    assert ps[1] == "other []";
  }

  lemma ExampleJoin()
    ensures Join(" ", ["one [#]", "other []"]) == "one [#] other []"
  {
    var ps := ["one [#]", "other []"];
    assert ps[1..] == ["other []"];
    assert "one [#]" + " " + "other []" == "one [#] other []";
  }

  /** `one` and `other` with `{count}`, plus an unknown form that is dropped. */
  lemma IcuPatternExample()
    ensures PluralPattern([("one", "{count}"), ("bogus", "x"), ("other", "")], s => s)
            == "{count, plural, one [#] other []}"
  {
    ExampleAllowedForms();
    ExampleParts();
    ExampleJoin();
    ExampleBraces("{count, plural, ", "one [#] other []", "}");
  }

  lemma ExampleBraces(a: string, b: string, c: string)
    requires a == "{count, plural, " && b == "one [#] other []" && c == "}"
    ensures a + b + c == "{count, plural, one [#] other []}"
  {
    assert |a + b + c| == 33;
    assert forall i | 0 <= i < 33 :: (a + b + c)[i] == "{count, plural, one [#] other []}"[i];
  }

  /** `generate_icu_pattern`, appending one part per allowed form. */
  method GenerateIcuPattern(target: Translation, unescape: string -> string) returns (r: string)
    ensures r == IcuPattern(target, unescape)
  {
    if target.Simple? {
      return unescape(target.text);
    }
    var forms := target.forms;
    var patternParts: seq<string> := [];
    for j := 0 to |forms|
      invariant patternParts == Parts(AllowedForms(forms[..j]), unescape)
    {
      AllowedFormsStep(forms, j);
      var (form, value) := forms[j];
      if form in IcuForms {
        var part := IcuPart((form, value), unescape);
        patternParts := patternParts + [part];
      }
    }
    assert forms[..|forms|] == forms;
    return "{count, plural, " + Join(" ", patternParts) + "}";
  }

  /** Each sorted item paired with its converted value. */
  function Converted(sorted: Translations, unescape: string -> string): (r: seq<(Option<string>, string)>)
    ensures |r| == |sorted|
  {
    seq(|sorted|, i requires 0 <= i < |sorted| => (sorted[i].0, IcuPattern(sorted[i].1, unescape)))
  }

  /** `converted_translations`: the converted values assigned in the sorted order. */
  function ConvertedTranslations(sorted: Translations, unescape: string -> string): Dict<Option<string>, string> {
    PutAll([], Converted(sorted, unescape))
  }

  /**
   * For sorted items without repeated keys the converted map holds exactly
   * the converted items, in the same (ascending) order.
   */
  lemma ConvertedInOrder(sorted: Translations, unescape: string -> string)
    requires Valid(sorted)
    ensures ConvertedTranslations(sorted, unescape) == Converted(sorted, unescape)
    ensures forall i :: 0 <= i < |sorted| ==> ConvertedTranslations(sorted, unescape)[i] == (sorted[i].0, IcuPattern(sorted[i].1, unescape))
  {
    var c := Converted(sorted, unescape);
    assert Valid(c) by {
      assert forall i :: 0 <= i < |c| ==> c[i].0 == sorted[i].0;
    }
    PutAllFresh(c);
  }

  /** The loop of `convert_xliff_to_json`. */
  method ConvertTranslations(sorted: Translations, unescape: string -> string) returns (converted: Dict<Option<string>, string>)
    ensures converted == ConvertedTranslations(sorted, unescape)
  {
    var c := Converted(sorted, unescape);
    converted := [];
    for i := 0 to |sorted|
      invariant converted == PutAll([], c[..i])
    {
      PutAllSnoc([], c, i);
      var (resname, target) := sorted[i];
      var pattern := GenerateIcuPattern(target, unescape);
      converted := Put(converted, resname, pattern);
    }
    assert c[..|sorted|] == c;
  }

  /** `{output_dir}/{output_locale}/messages.json`. */
  function MessagesPath(outputDir: string, locale: string, twoLetter: string): string {
    PathJoin(PathJoin(outputDir, OutputLocale(locale, twoLetter)), "messages.json")
  }

  /**
   * What `convert_xliff_to_json` writes: the path and the content, which is
   * the dumped map followed by two newlines; or why it stopped.
   */
  function JsonFile(input: Option<Document>, inputFile: string, outputDir: string, locale: string, twoLetter: string,
                    unescape: string -> string, dump: Dict<Option<string>, string> -> string)
    : (r: Result<(string, string), Error>)
    ensures input.None? ==> r == Failure(MissingInputFile(inputFile))
    ensures input.Some? && Parse(input.value).Failure? ==> r == Failure(MalformedPluralUnit)
    ensures input.Some? && Parse(input.value).Success? ==>
              (r.Failure? <==> SortedItems(Parse(input.value).value).Failure?)
    ensures r.Success? ==>
              && input.Some? && Parse(input.value).Success?
              && r.value.0 == MessagesPath(outputDir, locale, twoLetter)
              && exists s :: multiset(s) == multiset(Parse(input.value).value) && SortedBy(s, ItemKey)
                             && r.value.1 == dump(ConvertedTranslations(s, unescape)) + "\n" + "\n"
  {
    if input.None? then Failure(MissingInputFile(inputFile))
    else
      var translations :- Parse(input.value);
      var sorted :- SortedItems(translations);
      Success((MessagesPath(outputDir, locale, twoLetter), dump(ConvertedTranslations(sorted, unescape)) + "\n" + "\n"))
  }

  /** `convert_xliff_to_json`: parse, sort, convert, then the file's path and text. */
  method ConvertXliffToJson(input: Option<Document>, inputFile: string, outputDir: string, locale: string, twoLetter: string,
                            unescape: string -> string, dump: Dict<Option<string>, string> -> string)
    returns (r: Result<(string, string), Error>)
    ensures r == JsonFile(input, inputFile, outputDir, locale, twoLetter, unescape, dump)
  {
    if input.None? {
      return Failure(MissingInputFile(inputFile));
    }
    var translations :- ParseXliff(input.value);
    var sorted :- SortedItems(translations);
    var converted := ConvertTranslations(sorted, unescape);
    var outputFile := MessagesPath(outputDir, locale, twoLetter);
    var content := dump(converted);
    content := content + "\n";
    content := content + "\n";
    return Success((outputFile, content));
  }

  /**
   * For a parsed document whose items sort, the written map holds every
   * parsed key once, with its pattern, in ascending key order.
   */
  lemma ConvertedParsedItems(doc: Document, unescape: string -> string)
    requires Parse(doc).Success? && SortedItems(Parse(doc).value).Success?
    ensures var t := Parse(doc).value;
            var s := SortedItems(t).value;
            var c := ConvertedTranslations(s, unescape);
            && c == Converted(s, unescape)
            && |c| == |t| && Valid(c)
            && SortedBy(s, ItemKey)
            && forall i :: 0 <= i < |t| ==> (t[i].0, IcuPattern(t[i].1, unescape)) in c
  {
    ParseValid(doc);
    ConvertedPermuted(Parse(doc).value, SortedItems(Parse(doc).value).value, unescape);
  }

  /** Converting any reordering of a valid map gives each of its items' patterns under its key. */
  lemma ConvertedPermuted(t: Translations, s: Translations, unescape: string -> string)
    requires Valid(t) && multiset(t) == multiset(s)
    ensures var c := ConvertedTranslations(s, unescape);
            && c == Converted(s, unescape)
            && |c| == |t| && Valid(c)
            && forall i :: 0 <= i < |t| ==> (t[i].0, IcuPattern(t[i].1, unescape)) in c
  {
    var c := ConvertedTranslations(s, unescape);
    assert |t| == |multiset(t)| == |s|;
    ValidPermutation(t, s);
    ConvertedInOrder(s, unescape);
    PutAllValid([], Converted(s, unescape));
    var g := v => IcuPattern(v, unescape);
    PermutedImage(t, s, c, g);
    assert forall i :: 0 <= i < |t| ==> g(t[i].1) == IcuPattern(t[i].1, unescape);
  }

  /** What is computed item by item for a reordering of `t` holds an image of every item of `t`. */
  lemma PermutedImage<K, V, W>(t: seq<(K, V)>, s: seq<(K, V)>, c: seq<(K, W)>, g: V -> W)
    requires multiset(t) == multiset(s) && |c| == |s|
    requires forall j :: 0 <= j < |s| ==> c[j] == (s[j].0, g(s[j].1))
    ensures forall i :: 0 <= i < |t| ==> (t[i].0, g(t[i].1)) in c
  {
    forall i | 0 <= i < |t| ensures (t[i].0, g(t[i].1)) in c {
      assert t[i] in multiset(s);
      var j :| 0 <= j < |s| && s[j] == t[i];
      assert c[j] == (t[i].0, g(t[i].1));
    }
  }

  /** The locales whose translations are converted: the targets only, in ascending locale order. */
  function DesktopLocales(info: ProjectInfo): (r: seq<Language>)
    ensures multiset(r) == multiset(info.targetLanguages)
    ensures SortedBy(r, LocaleOf)
  {
    SortBy(info.targetLanguages, LocaleOf)
  }
}
