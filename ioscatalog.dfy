/**
 * The iOS converter's String Catalog: `clean_string`,
 * `convert_placeholders_for_plurals`, the localization shapes, and the
 * catalog `convert_xliff_to_string_catalog` accumulates over all locales.
 * `html.unescape` and the XLIFF files are parameters; the catalog's JSON
 * text is not modelled.
 */
module IosCatalog {
  import opened Wrappers
  import opened PyStr
  import opened PyDict
  import opened Ordering
  import opened Errors
  import opened Xliff
  import opened SharedParse
  import opened Project
  import opened IosParse

  /** `{"state": ..., "value": ...}`. */
  datatype StringUnit = StringUnit(state: string, value: string)

  /** The three shapes a locale's localization of a string takes. */
  datatype Localization =
    /** `{"stringUnit": unit}`, for a plain string. */
    | Single(stringUnit: StringUnit)
    /** `{"variations": {"plural": {form: {"stringUnit": unit}}}}`. */
    | Variations(plural: Dict<string, StringUnit>)
    /**
     * `{"stringUnit": unit, "substitutions": {"arg1": {"argNum": n,
     * "formatSpecifier": f, "variations": {"plural": ...}}}}`.
     */
    | Substitution(stringUnit: StringUnit, argNum: int, formatSpecifier: string, plural: Dict<string, StringUnit>)

  /** `{"extractionState": ..., "localizations": {language: localization}}`. */
  datatype CatalogEntry = CatalogEntry(extractionState: string, localizations: Dict<string, Localization>)

  const Translated: string := "translated"
  const Manual: string := "manual"
  const CountPlaceholder: string := "{count}"
  const CountSpecifier: string := "%lld"
  const SubstitutionFormat: string := "%#@arg1@"

  /** `clean_string`: unescape, then strip whitespace at both ends. */
  function CleanString(s: string, unescape: string -> string): (r: string)
    ensures r != [] ==> !IsSpace(r[0]) && !IsSpace(r[|r| - 1])
  {
    Strip(unescape(s))
  }

  /** Cleaning a cleaned string whose unescaping changes nothing changes nothing more. */
  lemma CleanStringStable(s: string, unescape: string -> string)
    requires unescape(CleanString(s, unescape)) == CleanString(s, unescape)
    ensures CleanString(CleanString(s, unescape), unescape) == CleanString(s, unescape)
  {
    StripIdempotent(unescape(s));
  }

  /** One plural form's value for iOS: `{count}` becomes `%lld`, then it is cleaned. */
  function PluralValue(v: string, unescape: string -> string): string {
    CleanString(Replace(v, CountPlaceholder, CountSpecifier), unescape)
  }

  /** The text handed to `unescape` holds no `{count}` any more. */
  lemma CountConverted(v: string)
    ensures !Contains(Replace(v, CountPlaceholder, CountSpecifier), CountPlaceholder)
  {
    ReplaceRemoves(v, CountPlaceholder, CountSpecifier);
  }

  /** Each form paired with its converted value. */
  function ConvertedItems(forms: Dict<string, string>, unescape: string -> string): (r: Dict<string, string>)
    ensures |r| == |forms|
  {
    seq(|forms|, i requires 0 <= i < |forms| => (forms[i].0, PluralValue(forms[i].1, unescape)))
  }

  /** `convert_placeholders_for_plurals`: the converted values assigned form by form. */
  function ConvertedForms(forms: Dict<string, string>, unescape: string -> string): Dict<string, string> {
    PutAll([], ConvertedItems(forms, unescape))
  }

  /** The converted forms keep the forms' order and their values are the converted values. */
  lemma ConvertedFormsInOrder(forms: Dict<string, string>, unescape: string -> string)
    requires Valid(forms)
    ensures |ConvertedForms(forms, unescape)| == |forms|
    ensures forall i :: 0 <= i < |forms| ==>
              ConvertedForms(forms, unescape)[i] == (forms[i].0, PluralValue(forms[i].1, unescape))
  {
    var c := ConvertedItems(forms, unescape);
    assert Valid(c) by {
      assert forall i :: 0 <= i < |c| ==> c[i].0 == forms[i].0;
    }
    PutAllFresh(c);
  }

  lemma ConvertedFormsStep(forms: Dict<string, string>, unescape: string -> string, i: nat)
    requires i < |forms|
    ensures PutAll([], ConvertedItems(forms, unescape)[..i + 1])
            == Put(PutAll([], ConvertedItems(forms, unescape)[..i]), forms[i].0, PluralValue(forms[i].1, unescape))
  {
    var c := ConvertedItems(forms, unescape);
    PutAllSnoc([], c, i);
    assert c[i] == (forms[i].0, PluralValue(forms[i].1, unescape));
  }

  /** `convert_placeholders_for_plurals`, filling the dict in a loop. */
  method ConvertPlaceholdersForPlurals(forms: Dict<string, string>, unescape: string -> string)
    returns (converted: Dict<string, string>)
    ensures converted == ConvertedForms(forms, unescape)
  {
    converted := [];
    for i := 0 to |forms|
      invariant converted == PutAll([], ConvertedItems(forms, unescape)[..i])
    {
      ConvertedFormsStep(forms, unescape, i);
      var form := forms[i].0;
      var value := forms[i].1;
      converted := Put(converted, form, CleanString(Replace(value, CountPlaceholder, CountSpecifier), unescape));
    }
    assert ConvertedItems(forms, unescape)[..|forms|] == ConvertedItems(forms, unescape);
  }

  /** `{form: {"stringUnit": {"state": "translated", "value": value}} for form, value in ...}`. */
  function FormUnits(converted: Dict<string, string>): (r: Dict<string, StringUnit>)
    ensures |r| == |converted|
  {
    seq(|converted|, i requires 0 <= i < |converted| => (converted[i].0, StringUnit(Translated, converted[i].1)))
  }

  /** Some raw form of the plural holds `{count}`. */
  predicate ContainsCount(forms: Dict<string, string>) {
    exists i | 0 <= i < |forms| :: Contains(forms[i].1, CountPlaceholder)
  }

  /**
   * A locale's localization of one translation: a plural that uses
   * `{count}` gets plain variations, one without it the `%#@arg1@`
   * substitution; a plain string gets one cleaned string unit.
   */
  function LocalizationOf(t: Translation, unescape: string -> string): Localization {
    match t
    case Plural(forms) =>
      var plural := FormUnits(ConvertedForms(forms, unescape));
      if ContainsCount(forms) then Variations(plural)
      else Substitution(StringUnit(Translated, SubstitutionFormat), 1, "lld", plural)
    case Simple(text) => Single(StringUnit(Translated, CleanString(text, unescape)))
  }

  /** Every string unit of a localization is marked translated. */
  predicate AllTranslated(l: Localization) {
    match l
    case Single(u) => u.state == Translated
    case Variations(p) => forall i :: 0 <= i < |p| ==> p[i].1.state == Translated
    case Substitution(u, _, _, p) => u.state == Translated && forall i :: 0 <= i < |p| ==> p[i].1.state == Translated
  }

  /**
   * The shape is chosen on the raw values: variations exactly when some
   * form mentions `{count}`, otherwise the substitution with argument 1 and
   * format `lld`; a plain string is a single unit.  Every unit is translated.
   */
  lemma LocalizationShape(t: Translation, unescape: string -> string)
    ensures AllTranslated(LocalizationOf(t, unescape))
    ensures t.Simple? <==> LocalizationOf(t, unescape).Single?
    ensures t.Plural? ==> (LocalizationOf(t, unescape).Variations? <==> ContainsCount(t.forms))
    ensures LocalizationOf(t, unescape).Substitution? ==>
              var l := LocalizationOf(t, unescape);
              l.stringUnit.value == SubstitutionFormat && l.argNum == 1 && l.formatSpecifier == "lld"
  {
  }

  /** The plural's forms, in order, with their converted values. */
  lemma PluralForms(forms: Dict<string, string>, unescape: string -> string, i: nat)
    requires Valid(forms) && i < |forms|
    ensures var l := LocalizationOf(Plural(forms), unescape);
            !l.Single? && |l.plural| == |forms|
            && l.plural[i] == (forms[i].0, StringUnit(Translated, PluralValue(forms[i].1, unescape)))
  {
    ConvertedFormsInOrder(forms, unescape);
  }

  /**
   * Set one locale's localization of `resname`: the entry is created, as
   * manual and without localizations, the first time the resname is seen;
   * only the given language's localization is replaced.
   */
  function SetLocalization(strings: Dict<string, CatalogEntry>, resname: string, language: string, loc: Localization)
    : Dict<string, CatalogEntry>
  {
    var e := if HasKey(strings, resname) then Get(strings, resname).value else CatalogEntry(Manual, []);
    Put(strings, resname, e.(localizations := Put(e.localizations, language, loc)))
  }

  /** The localizations one locale's translations set, in the given order. */
  function AddLocale(strings: Dict<string, CatalogEntry>, items: IosTranslations, language: string, unescape: string -> string)
    : Dict<string, CatalogEntry>
  {
    if items == [] then strings
    else
      var n := |items| - 1;
      SetLocalization(AddLocale(strings, items[..n], language, unescape), items[n].0, language, LocalizationOf(items[n].1, unescape))
  }

  lemma AddLocaleStep(strings: Dict<string, CatalogEntry>, items: IosTranslations, language: string, unescape: string -> string, i: nat)
    requires i < |items|
    ensures AddLocale(strings, items[..i + 1], language, unescape)
            == SetLocalization(AddLocale(strings, items[..i], language, unescape), items[i].0, language, LocalizationOf(items[i].1, unescape))
  {
    assert items[..i + 1][..i] == items[..i];
  }

  /** Every entry of the catalog was created as manual. */
  predicate AllManual(strings: Dict<string, CatalogEntry>) {
    forall i :: 0 <= i < |strings| ==> strings[i].1.extractionState == Manual
  }

  /**
   * Setting a localization touches only that resname's entry and, within
   * it, only that language; a new entry is manual, an existing entry keeps
   * its extraction state.
   */
  lemma SetLocalizationEffect(strings: Dict<string, CatalogEntry>, resname: string, language: string, loc: Localization,
                              r: string, l: string)
    ensures var s := SetLocalization(strings, resname, language, loc);
            && Get(s, resname).Some?
            && Get(Get(s, resname).value.localizations, language) == Some(loc)
            && (r != resname ==> Get(s, r) == Get(strings, r))
            && (l != language && Get(strings, resname).Some? ==>
                  Get(Get(s, resname).value.localizations, l) == Get(Get(strings, resname).value.localizations, l))
            && (l != language && Get(strings, resname).None? ==> Get(Get(s, resname).value.localizations, l).None?)
            && Get(s, resname).value.extractionState ==
                 if Get(strings, resname).Some? then Get(strings, resname).value.extractionState else Manual
  {
    var e := if HasKey(strings, resname) then Get(strings, resname).value else CatalogEntry(Manual, []);
    PutGet(strings, resname, e.(localizations := Put(e.localizations, language, loc)), r);
    PutGet(e.localizations, language, loc, l);
  }

  /** Entries keep being manual. */
  lemma SetLocalizationManual(strings: Dict<string, CatalogEntry>, resname: string, language: string, loc: Localization)
    requires AllManual(strings)
    ensures AllManual(SetLocalization(strings, resname, language, loc))
  {
    var e := if HasKey(strings, resname) then Get(strings, resname).value else CatalogEntry(Manual, []);
    if HasKey(strings, resname) {
      assert e == strings[IndexOf(strings, resname)].1;
    }
  }

  lemma {:induction false} AddLocaleManual(strings: Dict<string, CatalogEntry>, items: IosTranslations, language: string,
                                           unescape: string -> string)
    requires AllManual(strings)
    ensures AllManual(AddLocale(strings, items, language, unescape))
  {
    if items != [] {
      var n := |items| - 1;
      AddLocaleManual(strings, items[..n], language, unescape);
      SetLocalizationManual(AddLocale(strings, items[..n], language, unescape), items[n].0, language, LocalizationOf(items[n].1, unescape));
    }
  }

  /** Each resname of `items`, and only those, holds in `s` its last translation's localization for `language`. */
  predicate LocaleSets(strings: Dict<string, CatalogEntry>, items: IosTranslations, s: Dict<string, CatalogEntry>,
                       language: string, unescape: string -> string, r: string) {
    && (LastWith(items, r).Some? ==>
          Get(s, r).Some? && Get(Get(s, r).value.localizations, language) == Some(LocalizationOf(LastWith(items, r).value, unescape)))
    && (LastWith(items, r).None? ==> Get(s, r) == Get(strings, r))
  }

  lemma LocaleSetsStep(strings: Dict<string, CatalogEntry>, items: IosTranslations, pre: Dict<string, CatalogEntry>,
                       language: string, unescape: string -> string, r: string)
    requires items != []
    requires LocaleSets(strings, items[..|items| - 1], pre, language, unescape, r)
    ensures var n := |items| - 1;
            LocaleSets(strings, items, SetLocalization(pre, items[n].0, language, LocalizationOf(items[n].1, unescape)),
                       language, unescape, r)
  {
    var n := |items| - 1;
    var loc := LocalizationOf(items[n].1, unescape);
    assert items == items[..n] + [items[n]];
    LastWithAppend(items[..n], [items[n]], r);
    SetLocalizationEffect(pre, items[n].0, language, loc, r, language);
  }

  /** What one locale sets: each of its resnames, and only those, gets its last translation's localization. */
  lemma {:induction false} AddLocaleSets(strings: Dict<string, CatalogEntry>, items: IosTranslations, language: string,
                                         unescape: string -> string, r: string)
    ensures LocaleSets(strings, items, AddLocale(strings, items, language, unescape), language, unescape, r)
  {
    if items != [] {
      var n := |items| - 1;
      AddLocaleSets(strings, items[..n], language, unescape, r);
      LocaleSetsStep(strings, items, AddLocale(strings, items[..n], language, unescape), language, unescape, r);
    }
  }

  /** What one locale leaves alone: the other languages' localizations of every resname. */
  lemma {:induction false} AddLocaleKeeps(strings: Dict<string, CatalogEntry>, items: IosTranslations, language: string,
                                          unescape: string -> string, r: string, l: string)
    requires l != language
    ensures var s := AddLocale(strings, items, language, unescape);
            && (Get(strings, r).Some? ==>
                  Get(s, r).Some? && Get(Get(s, r).value.localizations, l) == Get(Get(strings, r).value.localizations, l))
            && (Get(strings, r).None? && Get(s, r).Some? ==> Get(Get(s, r).value.localizations, l).None?)
  {
    if items != [] {
      var n := |items| - 1;
      var pre := AddLocale(strings, items[..n], language, unescape);
      AddLocaleKeeps(strings, items[..n], language, unescape, r, l);
      SetLocalizationEffect(pre, items[n].0, language, LocalizationOf(items[n].1, unescape), r, l);
    }
  }

  /**
   * After one locale, every resname it translates holds, for that locale,
   * the localization of its last translation in the given order; other
   * resnames and other languages keep what they had.
   */
  lemma AddLocaleEffect(strings: Dict<string, CatalogEntry>, items: IosTranslations, language: string,
                        unescape: string -> string, r: string, l: string)
    ensures var s := AddLocale(strings, items, language, unescape);
            && (LastWith(items, r).Some? ==>
                  Get(s, r).Some? && Get(Get(s, r).value.localizations, language) == Some(LocalizationOf(LastWith(items, r).value, unescape)))
            && (LastWith(items, r).None? ==> Get(s, r) == Get(strings, r))
            && (l != language && Get(strings, r).Some? ==>
                  Get(s, r).Some? && Get(Get(s, r).value.localizations, l) == Get(Get(strings, r).value.localizations, l))
            && (l != language && Get(strings, r).None? && Get(s, r).Some? ==> Get(Get(s, r).value.localizations, l).None?)
  {
    AddLocaleSets(strings, items, language, unescape, r);
    if l != language {
      AddLocaleKeeps(strings, items, language, unescape, r, l);
    }
  }

  /** `sorted(translations.items())`: ascending by key (keys are strings on iOS). */
  function Key(item: (string, Translation)): string {
    item.0
  }

  /** The path of a locale's XLIFF file. */
  function XliffPath(inputDir: string, locale: string): string {
    PathJoin(inputDir, locale + ".xliff")
  }

  /**
   * The catalog's strings after the given locales, in order; `files` gives
   * the parsed XLIFF document at a path, `None` when there is no file.  A
   * missing file or a parse error stops the whole conversion.
   */
  function CatalogStrings(languages: seq<Language>, inputDir: string, files: string -> Option<Document>, unescape: string -> string)
    : (r: Result<Dict<string, CatalogEntry>, Error>)
  {
    if languages == [] then Success([])
    else
      var n := |languages| - 1;
      var strings :- CatalogStrings(languages[..n], inputDir, files, unescape);
      var path := XliffPath(inputDir, languages[n].locale);
      if files(path).None? then Failure(MissingInputFile(path))
      else
        var parsed :- IosParseSpec(files(path).value);
        Success(AddLocale(strings, SortBy(parsed.0, Key), parsed.1, unescape))
  }

  lemma CatalogStep(languages: seq<Language>, inputDir: string, files: string -> Option<Document>, unescape: string -> string, i: nat)
    requires i < |languages|
    ensures CatalogStrings(languages[..i + 1], inputDir, files, unescape) ==
            var prior := CatalogStrings(languages[..i], inputDir, files, unescape);
            var path := XliffPath(inputDir, languages[i].locale);
            if prior.Failure? then prior
            else if files(path).None? then Failure(MissingInputFile(path))
            else if IosParseSpec(files(path).value).Failure? then Failure(IosParseSpec(files(path).value).error)
            else
              var parsed := IosParseSpec(files(path).value).value;
              Success(AddLocale(prior.value, SortBy(parsed.0, Key), parsed.1, unescape))
  {
    assert languages[..i + 1][..i] == languages[..i];
  }

  /** Every entry of a finished catalog is manual. */
  lemma {:induction false} CatalogManual(languages: seq<Language>, inputDir: string, files: string -> Option<Document>, unescape: string -> string)
    requires CatalogStrings(languages, inputDir, files, unescape).Success?
    ensures AllManual(CatalogStrings(languages, inputDir, files, unescape).value)
  {
    if languages != [] {
      var n := |languages| - 1;
      CatalogManual(languages[..n], inputDir, files, unescape);
      var strings := CatalogStrings(languages[..n], inputDir, files, unescape).value;
      var parsed := IosParseSpec(files(XliffPath(inputDir, languages[n].locale)).value).value;
      AddLocaleManual(strings, SortBy(parsed.0, Key), parsed.1, unescape);
    }
  }

  /**
   * The last locale processed sets, under its file's target language, the
   * localization of each translation parsed from its file; the sorted
   * items repeat no key, so each resname gets the localization of its own
   * translation.
   */
  lemma LastLocaleLocalized(languages: seq<Language>, inputDir: string, files: string -> Option<Document>,
                            unescape: string -> string, k: string, t: Translation)
    requires languages != [] && CatalogStrings(languages, inputDir, files, unescape).Success?
    requires var doc := files(XliffPath(inputDir, languages[|languages| - 1].locale));
             doc.Some? && IosParseSpec(doc.value).Success? && (k, t) in IosParseSpec(doc.value).value.0
    ensures var doc := files(XliffPath(inputDir, languages[|languages| - 1].locale));
            var parsed := IosParseSpec(doc.value).value;
            var s := CatalogStrings(languages, inputDir, files, unescape).value;
            Get(s, k).Some? && Get(Get(s, k).value.localizations, parsed.1) == Some(LocalizationOf(t, unescape))
  {
    var n := |languages| - 1;
    var doc := files(XliffPath(inputDir, languages[n].locale)).value;
    var parsed := IosParseSpec(doc).value;
    var strings := CatalogStrings(languages[..n], inputDir, files, unescape).value;
    IosParseValid(doc);
    SortedItemLocalized(strings, parsed.0, parsed.1, unescape, k, t);
  }

  /** Adding a parsed dict's items, sorted, gives each of its keys that item's localization. */
  lemma SortedItemLocalized(strings: Dict<string, CatalogEntry>, items: IosTranslations, language: string,
                            unescape: string -> string, k: string, t: Translation)
    requires Valid(items) && (k, t) in items
    ensures var s := AddLocale(strings, SortBy(items, Key), language, unescape);
            Get(s, k).Some? && Get(Get(s, k).value.localizations, language) == Some(LocalizationOf(t, unescape))
  {
    var sorted := SortBy(items, Key);
    ValidPermutation(items, sorted);
    assert (k, t) in multiset(sorted);
    var i :| 0 <= i < |sorted| && sorted[i] == (k, t);
    UniqueLastWith(sorted, i);
    AddLocaleEffect(strings, sorted, language, unescape, k, language);
  }

  /** In a dict without repeated keys, the value stored under a key is its only one. */
  lemma UniqueLastWith<K(!new), V>(d: Dict<K, V>, i: nat)
    requires Valid(d) && i < |d|
    ensures LastWith(d, d[i].0) == Some(d[i].1)
  {
    var r := LastWith(d, d[i].0);
    var j :| 0 <= j < |d| && d[j] == (d[i].0, r.value) && forall m :: j < m < |d| ==> d[m].0 != d[i].0;
    assert j == i;
  }

  /** The String Catalog being accumulated: fixed top-level fields and the strings by resname. */
  class StringCatalog {
    const sourceLanguage: string
    const version: string
    var strings: Dict<string, CatalogEntry>

    constructor()
      ensures sourceLanguage == "en" && version == "1.0" && strings == []
    {
      sourceLanguage := "en";
      version := "1.0";
      strings := [];
    }

    /** Create the resname's entry if it is new, then set one language's localization. */
    method Localize(resname: string, language: string, loc: Localization)
      modifies this
      ensures strings == SetLocalization(old(strings), resname, language, loc)
    {
      PutGet(strings, resname, CatalogEntry(Manual, []), resname);
      if !HasKey(strings, resname) {
        strings := Put(strings, resname, CatalogEntry(Manual, []));
      }
      var entry := Get(strings, resname).value;
      var e := entry.(localizations := Put(entry.localizations, language, loc));
      PutPut(old(strings), resname, CatalogEntry(Manual, []), e);
      strings := Put(strings, resname, e);
    }

    /** The loop over one locale's sorted translations. */
    method AddTranslations(sorted: IosTranslations, targetLanguage: string, unescape: string -> string)
      modifies this
      ensures strings == AddLocale(old(strings), sorted, targetLanguage, unescape)
    {
      for i := 0 to |sorted|
        invariant strings == AddLocale(old(strings), sorted[..i], targetLanguage, unescape)
      {
        AddLocaleStep(old(strings), sorted, targetLanguage, unescape, i);
        var (resname, translation) := sorted[i];
        var loc;
        if translation.Plural? {
          var converted := ConvertPlaceholdersForPlurals(translation.forms, unescape);
          var containsCount := exists j | 0 <= j < |translation.forms| :: Contains(translation.forms[j].1, CountPlaceholder);
          var plural := FormUnits(converted);
          if containsCount {
            loc := Variations(plural);
          } else {
            loc := Substitution(StringUnit(Translated, SubstitutionFormat), 1, "lld", plural);
          }
        } else {
          loc := Single(StringUnit(Translated, CleanString(translation.text, unescape)));
        }
        Localize(resname, targetLanguage, loc);
      }
      assert sorted[..|sorted|] == sorted;
    }
  }

  /**
   * `convert_xliff_to_string_catalog`: a new catalog, then each locale's
   * file parsed, sorted and added in turn.
   */
  method ConvertXliffToStringCatalog(inputDir: string, files: string -> Option<Document>,
                                     languages: seq<Language>, unescape: string -> string)
    returns (r: Result<StringCatalog, Error>)
    ensures CatalogStrings(languages, inputDir, files, unescape).Failure? <==> r.Failure?
    ensures r.Failure? ==> r.error == CatalogStrings(languages, inputDir, files, unescape).error
    ensures r.Success? ==> fresh(r.value) && r.value.sourceLanguage == "en" && r.value.version == "1.0"
                           && r.value.strings == CatalogStrings(languages, inputDir, files, unescape).value
  {
    var catalog := new StringCatalog();
    for i := 0 to |languages|
      invariant CatalogStrings(languages[..i], inputDir, files, unescape).Success?
      invariant catalog.strings == CatalogStrings(languages[..i], inputDir, files, unescape).value
      invariant fresh(catalog) && catalog.sourceLanguage == "en" && catalog.version == "1.0"
    {
      CatalogStep(languages, inputDir, files, unescape, i);
      var inputFile := XliffPath(inputDir, languages[i].locale);
      var doc := files(inputFile);
      if doc.None? {
        PrefixFailure(languages, inputDir, files, unescape, i + 1);
        return Failure(MissingInputFile(inputFile));
      }
      var parsed := IosParseXliff(doc.value);
      if parsed.Failure? {
        PrefixFailure(languages, inputDir, files, unescape, i + 1);
        return Failure(parsed.error);
      }
      var (translations, targetLanguage) := parsed.value;
      var sortedTranslations := SortBy(translations, Key);
      catalog.AddTranslations(sortedTranslations, targetLanguage, unescape);
    }
    assert languages[..|languages|] == languages;
    return Success(catalog);
  }

  /** A failure on some prefix of the locales is the failure of the whole run. */
  lemma {:induction false} PrefixFailure(languages: seq<Language>, inputDir: string, files: string -> Option<Document>,
                                         unescape: string -> string, i: nat)
    requires i <= |languages| && CatalogStrings(languages[..i], inputDir, files, unescape).Failure?
    ensures CatalogStrings(languages, inputDir, files, unescape) == CatalogStrings(languages[..i], inputDir, files, unescape)
    decreases |languages| - i
  {
    if i < |languages| {
      CatalogStep(languages, inputDir, files, unescape, i);
      PrefixFailure(languages, inputDir, files, unescape, i + 1);
    } else {
      assert languages[..i] == languages;
    }
  }
}
