/**
 * What the three converters read from `_project_info.json` and
 * `_non_translatable_strings.json`, and the order in which they convert
 * the locales.
 */
module Project {
  import opened Ordering

  /** One entry of `sourceLanguage` / `targetLanguages`. */
  datatype Language = Language(locale: string, twoLettersCode: string, textDirection: string)

  /** The project's languages: the source and the targets, as listed. */
  datatype ProjectInfo = ProjectInfo(sourceLanguage: Language, targetLanguages: seq<Language>)

  /** One glossary entry of the non-translatable strings: its note (the key) and its text. */
  datatype GlossaryEntry = GlossaryEntry(note: string, text: string)

  function LocaleOf(l: Language): string {
    l.locale
  }

  /** The source language first, then the targets in ascending locale order. */
  function ProcessingOrder(info: ProjectInfo): (r: seq<Language>)
    ensures |r| == |info.targetLanguages| + 1
    ensures r[0] == info.sourceLanguage
    ensures multiset(r[1..]) == multiset(info.targetLanguages)
    ensures SortedBy(r[1..], LocaleOf)
  {
    var sorted := SortBy(info.targetLanguages, LocaleOf);
    assert ([info.sourceLanguage] + sorted)[1..] == sorted;
    [info.sourceLanguage] + sorted
  }

  /**
   * POSIX `os.path.join(a, b)`: an absolute `b` (one starting with `/`)
   * discards `a`; otherwise `b` follows `a`, with a `/` between them unless
   * `a` is empty or already ends in one.
   */
  function PathJoin(a: string, b: string): (r: string)
    ensures |b| <= |r| && r[|r| - |b|..] == b
    ensures b != [] && b[0] == '/' ==> r == b
    ensures b == [] || b[0] != '/' ==>
              && |a| + |b| <= |r| <= |a| + |b| + 1
              && (a != [] ==> r[..|a|] == a && r[|r| - |b| - 1] == '/')
  {
    if b != [] && b[0] == '/' then b
    else if a == [] || a[|a| - 1] == '/' then a + b
    else a + "/" + b
  }

  /** The three cases of `os.path.join`. */
  lemma PathJoinExamples()
    ensures PathJoin("out", "values") == "out/values"
    ensures PathJoin("out/", "values") == "out/values"
    ensures PathJoin("in", "/abs.xliff") == "/abs.xliff"
  {
    assert "out"[2] != '/' && "out/"[3] == '/';
    assert "/abs.xliff"[0] == '/';
  }
}
