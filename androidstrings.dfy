/**
 * `generate_android_xml` and the file layout of
 * `convert_xliff_to_android_xml`: the `strings.xml` text for one locale
 * and the resource directories it is written to.
 */
module AndroidStrings {
  import opened Wrappers
  import opened PyStr
  import opened PyDict
  import opened Ordering
  import opened Errors
  import opened Xliff
  import opened SharedParse
  import opened Project
  import opened AndroidPlaceholders
  import opened AndroidEscape

  const XmlDeclaration: string := "<?xml version=\"1.0\" encoding=\"utf-8\"?>\n"
  const ResourcesOpen: string := "<resources>\n"
  const ResourcesClose: string := "</resources>"

  /** The untranslatable `app_name` string, written unescaped, when there is an app name. */
  function AppNameLine(appName: Option<string>): string {
    if appName.Some? then "    <string name=\"app_name\" translatable=\"false\">" + appName.value + "</string>\n"
    else ""
  }

  /** One plural form: its placeholders are made positional, then it is escaped. */
  function PluralItem(form: (string, string)): string {
    "        <item quantity=\"" + form.0 + "\">" + EscapeAndroidString(ConvertPlaceholders(form.1)) + "</item>\n"
  }

  /** A `<string>` element: the text is escaped, its placeholders are kept. */
  function StringElement(name: string, text: string): string {
    "    <string name=\"" + name + "\">" + EscapeAndroidString(text) + "</string>\n"
  }

  function PluralsOpen(name: string): string {
    "    <plurals name=\"" + name + "\">\n"
  }

  const PluralsClose: string := "    </plurals>\n"

  /** A `<plurals>` element for a plural group, a `<string>` element otherwise. */
  function Entry(item: (Option<string>, Translation)): string {
    match item.1
    case Plural(forms) => PluralsOpen(KeyText(item.0)) + Concat(forms, PluralItem) + PluralsClose
    case Simple(text) => StringElement(KeyText(item.0), text)
  }

  /** The file for already sorted items. */
  function AndroidXml(items: Translations, appName: Option<string>): string {
    XmlDeclaration + ResourcesOpen + AppNameLine(appName) + Concat(items, Entry) + ResourcesClose
  }

  /**
   * The file starts with the XML declaration and `<resources>`, ends with
   * `</resources>`, and holds the `app_name` line, then the entries.
   */
  lemma AndroidXmlFrame(items: Translations, appName: Option<string>)
    ensures var r := AndroidXml(items, appName);
            var h := |XmlDeclaration + ResourcesOpen|;
            && h + |ResourcesClose| <= |r|
            && r[..h] == XmlDeclaration + ResourcesOpen
            && r[|r| - |ResourcesClose|..] == ResourcesClose
            && r[h..|r| - |ResourcesClose|] == AppNameLine(appName) + Concat(items, Entry)
  {
    Frame(XmlDeclaration, ResourcesOpen, AppNameLine(appName), Concat(items, Entry), ResourcesClose);
  }

  /**
   * `generate_android_xml`: the items in ascending resname order rendered
   * as resources; `sorted` fails on a missing resname next to another key.
   */
  function GenerateAndroidXmlSpec(t: Translations, appName: Option<string>): (r: Result<string, Error>)
    ensures r.Failure? <==> |t| >= 2 && exists i :: 0 <= i < |t| && t[i].0.None?
    ensures r.Failure? ==> r.error == UnorderableKeys
    ensures r.Success? ==> exists s :: multiset(s) == multiset(t) && SortedBy(s, ItemKey) && r.value == AndroidXml(s, appName)
  {
    match SortedItems(t)
    case Failure(e) => Failure(e)
    case Success(s) => Success(AndroidXml(s, appName))
  }

  /** The text of a `<plurals>` element, built form by form. */
  method PluralsElement(name: string, forms: Dict<string, string>) returns (r: string)
    ensures r == PluralsOpen(name) + Concat(forms, PluralItem) + PluralsClose
  {
    var open := PluralsOpen(name);
    r := open;
    for j := 0 to |forms|
      invariant r == open + Concat(forms[..j], PluralItem)
    {
      ConcatStep(forms, PluralItem, j);
      Associate(open, Concat(forms[..j], PluralItem), PluralItem(forms[j]));
      var item := PluralItem(forms[j]);
      r := r + item;
    }
    assert forms[..|forms|] == forms;
    r := r + PluralsClose;
  }

  /** The entries of the sorted items, appended one by one. */
  method RenderEntries(sorted: Translations) returns (r: string)
    ensures r == Concat(sorted, Entry)
  {
    r := "";
    for i := 0 to |sorted|
      invariant r == Concat(sorted[..i], Entry)
    {
      assert sorted[..i + 1][..i] == sorted[..i];
      var (resname, target) := sorted[i];
      var element;
      if target.Plural? {
        element := PluralsElement(KeyText(resname), target.forms);
      } else {
        element := StringElement(KeyText(resname), target.text);
      }
      r := r + element;
    }
    assert sorted[..|sorted|] == sorted;
  }

  /** `generate_android_xml`, accumulating the text entry by entry. */
  method GenerateAndroidXml(t: Translations, appName: Option<string>) returns (r: Result<string, Error>)
    ensures r == GenerateAndroidXmlSpec(t, appName)
  {
    var sorted :- SortedItems(t);
    var result := XmlDeclaration;
    result := result + ResourcesOpen;
    if appName.Some? {
      result := result + AppNameLine(appName);
    } else {
      assert result == result + AppNameLine(appName);
    }
    var entries := RenderEntries(sorted);
    result := result + entries;
    result := result + ResourcesClose;
    return Success(result);
  }

  /** Entry `i` of the sorted items is rendered right after the entries before it and right before those after it. */
  lemma EntriesInOrder(items: Translations, appName: Option<string>, i: nat)
    requires i < |items|
    ensures AndroidXml(items, appName)
            == XmlDeclaration + ResourcesOpen + AppNameLine(appName) + Concat(items[..i], Entry) + Entry(items[i])
               + Concat(items[i + 1..], Entry) + ResourcesClose
  {
    SplitBetween(XmlDeclaration + ResourcesOpen + AppNameLine(appName), items, Entry, ResourcesClose, i);
  }

  /**
   * A simple string is only escaped: when it holds nothing the escape
   * chain changes, its `{name}` placeholders reach the file as written.
   */
  lemma SimpleEntryVerbatim(k: Option<string>, text: string)
    requires forall j | 0 <= j < |Steps| :: !Contains(text, Steps[j].0)
    ensures Entry((k, Simple(text))) == "    <string name=\"" + KeyText(k) + "\">" + text + "</string>\n"
  {
    EscapePlain(text);
  }

  /** A plural form's value has its placeholders converted before it is escaped. */
  lemma PluralItemValue(form: string, value: string)
    requires forall j | 0 <= j < |Steps| :: !Contains(ConvertPlaceholders(value), Steps[j].0)
    ensures PluralItem((form, value)) == "        <item quantity=\"" + form + "\">" + Positional(Tokens(value), {}) + "</item>\n"
  {
    EscapePlain(ConvertPlaceholders(value));
    ConvertIsPositional(value);
  }

  /** `locale.split('-')[0]`. */
  function LanguageCode(locale: string): string {
    BeforeFirst(locale, '-')
  }

  /** `locale.split('-')[1]` when the locale has a `-`. */
  function RegionCode(locale: string): Option<string> {
    if '-' in locale then Some(BeforeFirst(AfterFirst(locale, '-'), '-')) else None
  }

  /**
   * The resource directories a locale's file goes to: `values` for the
   * source locale and `values-{lang}` for the others, then
   * `values-{lang}-r{region}` when the region field is non-empty.
   */
  function OutputDirectories(sourceLocale: string, locale: string): seq<string> {
    var lang := LanguageCode(locale);
    var region := RegionCode(locale);
    [if locale == sourceLocale then "values" else "values-" + lang]
      + (if region.Some? && region.value != "" then ["values-" + lang + "-r" + region.value] else [])
  }

  /** The first directory is `values` exactly for the source locale, `values-{lang}` otherwise. */
  lemma MainDirectory(sourceLocale: string, locale: string)
    ensures var ds := OutputDirectories(sourceLocale, locale);
            && 1 <= |ds| <= 2
            && (ds[0] == "values" <==> locale == sourceLocale)
            && (locale != sourceLocale ==> ds[0] == "values-" + LanguageCode(locale))
  {
    assert |"values-" + LanguageCode(locale)| > |"values"|;
  }

  /**
   * A second directory `values-{lang}-r{region}` is written exactly when the
   * character after the first `-` exists and is not another `-`; the region
   * is the text from there up to the next `-`.
   */
  lemma RegionDirectory(sourceLocale: string, locale: string)
    ensures var ds := OutputDirectories(sourceLocale, locale);
            var n := |LanguageCode(locale)|;
            && (|ds| == 2 <==> n + 1 < |locale| && locale[n + 1] != '-')
            && (|ds| == 2 ==> ds[1] == "values-" + LanguageCode(locale) + "-r" + BeforeFirst(locale[n + 1..], '-'))
  {
    var lang := LanguageCode(locale);
    var n := |lang|;
    if '-' in locale {
      var rest := AfterFirst(locale, '-');
      assert locale == lang + "-" + rest;
      assert rest == locale[n + 1..];
      if rest != [] {
        assert locale[n + 1] == rest[0];
      }
    }
  }

  /** `pt-BR` (not the source) is written to `values-pt` and `values-pt-rBR`. */
  lemma RegionDirectoryExample()
    ensures OutputDirectories("en", "pt-BR") == ["values-pt", "values-pt-rBR"]
  {
    PtBrCodes();
    assert "values-" + "pt" == "values-pt";
    assert "values-" + "pt" + "-r" + "BR" == "values-pt-rBR";
  }

  /** `pt-BR` has the language `pt` and the region `BR`. */
  lemma PtBrCodes()
    ensures LanguageCode("pt-BR") == "pt" && RegionCode("pt-BR") == Some("BR")
  {
    PtBrFields();
    assert '-' in "pt-BR" by {
      assert "pt-BR"[2] == '-';
    }
    assert '-' !in "BR";
  }

  lemma PtBrFields()
    ensures BeforeFirst("pt-BR", '-') == "pt" && AfterFirst("pt-BR", '-') == "BR"
  {
    assert BeforeFirst("pt-BR", '-') == "pt" by {
      assert "pt-BR"[..2] == "pt";
    }
    assert "pt-BR"[2] == '-';
  }

  /**
   * `convert_xliff_to_android_xml`: the (path, content) pairs it writes,
   * in order; `app_name` goes only into the source locale's file.
   */
  function ConvertXliffToAndroidXml(input: Option<Document>, inputFile: string, outputDir: string,
                                    sourceLocale: string, locale: string, appName: Option<string>)
    : (r: Result<seq<(string, string)>, Error>)
    ensures input.None? ==> r == Failure(MissingInputFile(inputFile))
    ensures input.Some? && Parse(input.value).Failure? ==> r == Failure(MalformedPluralUnit)
    ensures input.Some? && Parse(input.value).Success? ==>
              (r.Failure? <==> GenerateAndroidXmlSpec(Parse(input.value).value, if locale == sourceLocale then appName else None).Failure?)
    ensures r.Success? ==> |r.value| == |OutputDirectories(sourceLocale, locale)|
  {
    if input.None? then Failure(MissingInputFile(inputFile))
    else
      var translations :- Parse(input.value);
      var content :- GenerateAndroidXmlSpec(translations, if locale == sourceLocale then appName else None);
      var dirs := OutputDirectories(sourceLocale, locale);
      Success(seq(|dirs|, i requires 0 <= i < |dirs| => (PathJoin(PathJoin(outputDir, dirs[i]), "strings.xml"), content)))
  }

  /**
   * Every directory receives the same `strings.xml`: the parsed translations
   * rendered with the app name for the source locale and without it otherwise.
   */
  lemma ConvertWrites(input: Option<Document>, inputFile: string, outputDir: string,
                      sourceLocale: string, locale: string, appName: Option<string>, i: nat)
    requires ConvertXliffToAndroidXml(input, inputFile, outputDir, sourceLocale, locale, appName).Success?
    requires i < |OutputDirectories(sourceLocale, locale)|
    ensures var w := ConvertXliffToAndroidXml(input, inputFile, outputDir, sourceLocale, locale, appName).value;
            && input.Some? && Parse(input.value).Success?
            && w[i].0 == PathJoin(PathJoin(outputDir, OutputDirectories(sourceLocale, locale)[i]), "strings.xml")
            && w[i].1 == GenerateAndroidXmlSpec(Parse(input.value).value, if locale == sourceLocale then appName else None).value
  {
  }
}
