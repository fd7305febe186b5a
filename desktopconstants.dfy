/**
 * `convert_non_translatable_strings_to_type_script` and the RTL filter of
 * the desktop converter's `convert_all_files`: the `LOCALE_DEFAULTS` enum of
 * the glossary and the sorted list of right-to-left language codes.
 */
module DesktopConstants {
  import opened Wrappers
  import opened PyStr
  import opened Ordering
  import opened Errors
  import opened Project

  const EnumOpen: string := "export enum LOCALE_DEFAULTS {\n"
  const EnumClose: string := "}\n" + "\n"

  /** One enum member: the note as written (not upper-cased) and the text in single quotes. */
  function EnumLine(e: GlossaryEntry): string {
    "  " + e.note + " = '" + e.text + "',\n"
  }

  /** The languages written right to left, in their given order. */
  function RtlLanguages(langs: seq<Language>): (r: seq<Language>)
    ensures |r| <= |langs|
  {
    if langs == [] then []
    else
      var last := langs[|langs| - 1];
      RtlLanguages(langs[..|langs| - 1]) + (if last.textDirection == "rtl" then [last] else [])
  }

  /** The two-letter codes of the languages, in order. */
  function Codes(langs: seq<Language>): (r: seq<string>)
    ensures |r| == |langs|
  {
    seq(|langs|, i requires 0 <= i < |langs| => langs[i].twoLettersCode)
  }

  function Id(s: string): string {
    s
  }

  /**
   * `sorted([lang["twoLettersCode"] for lang in rtl_languages])`: every code
   * of the given languages, ascending, duplicates kept.
   */
  function RtlCodes(rtlLanguages: seq<Language>): (r: seq<string>)
    ensures |r| == |rtlLanguages|
    ensures multiset(r) == multiset(Codes(rtlLanguages))
    ensures SortedBy(r, Id)
  {
    SortBy(Codes(rtlLanguages), Id)
  }

  /** `", ".join(f"'{locale}'" for locale in rtl_locales)`. */
  function JoinedCodes(codes: seq<string>): string {
    Join(", ", seq(|codes|, i requires 0 <= i < |codes| => "'" + codes[i] + "'"))
  }

  /**
   * The `rtlLocales` line.  The joined codes are wrapped in a one-element
   * set, so what lands between the brackets is that set's printed form;
   * `setRepr` stands for Python's rendering of `{joined}`.
   */
  function RtlLine(codes: seq<string>, setRepr: string -> string): string {
    "export const rtlLocales = [" + setRepr(JoinedCodes(codes)) + "] as const;\n"
  }

  /** The TypeScript file for a glossary and the right-to-left languages. */
  function TypeScriptFile(entries: seq<GlossaryEntry>, rtlLanguages: seq<Language>, setRepr: string -> string): string {
    EnumOpen + Concat(entries, EnumLine) + EnumClose + RtlLine(RtlCodes(rtlLanguages), setRepr) + "\n"
  }

  /** What the conversion writes, or why it stopped. */
  function TypeScriptConstants(input: Option<seq<GlossaryEntry>>, inputFile: string, rtlLanguages: seq<Language>,
                               setRepr: string -> string): (r: Result<string, Error>)
    ensures r.Failure? <==> input.None?
    ensures r.Failure? ==> r.error == MissingInputFile(inputFile)
  {
    if input.None? then Failure(MissingInputFile(inputFile))
    else Success(TypeScriptFile(input.value, rtlLanguages, setRepr))
  }

  /** The loop writing one enum member per glossary entry. */
  method WriteEnumLines(entries: seq<GlossaryEntry>) returns (lines: string)
    ensures lines == Concat(entries, EnumLine)
  {
    lines := "";
    for i := 0 to |entries|
      invariant lines == Concat(entries[..i], EnumLine)
    {
      ConcatStep(entries, EnumLine, i);
      var key := entries[i].note;
      var text := entries[i].text;
      lines := lines + ("  " + key + " = '" + text + "',\n");
    }
    assert entries[..|entries|] == entries;
  }

  /** `convert_non_translatable_strings_to_type_script`. */
  method ConvertNonTranslatableStringsToTypeScript(input: Option<seq<GlossaryEntry>>, inputFile: string,
                                                   rtlLanguages: seq<Language>, setRepr: string -> string)
    returns (r: Result<string, Error>)
    ensures r == TypeScriptConstants(input, inputFile, rtlLanguages, setRepr)
  {
    if input.None? {
      return Failure(MissingInputFile(inputFile));
    }
    var entries := input.value;
    var rtlLocales := RtlCodes(rtlLanguages);
    var lines := WriteEnumLines(entries);
    var file := EnumOpen + lines;
    file := file + "}\n";
    file := file + "\n";
    assert file == EnumOpen + lines + EnumClose;
    file := file + RtlLine(rtlLocales, setRepr);
    file := file + "\n";
    return Success(file);
  }

  /** Entry `i`'s member comes right after the members before it and right before those after it. */
  lemma EnumLinesInOrder(entries: seq<GlossaryEntry>, rtlLanguages: seq<Language>, setRepr: string -> string, i: nat)
    requires i < |entries|
    ensures TypeScriptFile(entries, rtlLanguages, setRepr)
            == EnumOpen + Concat(entries[..i], EnumLine) + EnumLine(entries[i]) + Concat(entries[i + 1..], EnumLine)
               + EnumClose + RtlLine(RtlCodes(rtlLanguages), setRepr) + "\n"
  {
    SplitBetween(EnumOpen, entries, EnumLine, EnumClose, i);
  }

  /** A member keeps the note exactly as written: `  {note} = '{text}',`. */
  lemma EnumLineKey(e: GlossaryEntry)
    ensures var l := EnumLine(e);
            && |l| == |e.note| + |e.text| + 9
            && l[..2] == "  " && l[2..2 + |e.note|] == e.note
            && l[2 + |e.note|..6 + |e.note|] == " = '"
            && l[6 + |e.note|..6 + |e.note| + |e.text|] == e.text
  {
    var l := EnumLine(e);
    Frame("  ", e.note, " = '", e.text, "',\n");
    assert l == "  " + e.note + " = '" + e.text + "',\n";
    Pieces("  ", e.note, " = '");
    InnerSlice("  " + e.note + " = '", e.text, "',\n", 0, |e.text|);
  }

  lemma RtlStep(langs: seq<Language>, j: nat)
    requires j < |langs|
    ensures RtlLanguages(langs[..j + 1]) == RtlLanguages(langs[..j]) + (if langs[j].textDirection == "rtl" then [langs[j]] else [])
  {
    assert langs[..j + 1][..j] == langs[..j];
  }

  /** Exactly the right-to-left languages are kept. */
  lemma {:induction false} RtlMembers(langs: seq<Language>, l: Language)
    ensures l in RtlLanguages(langs) <==> l in langs && l.textDirection == "rtl"
  {
    if langs != [] {
      var pre := langs[..|langs| - 1];
      RtlMembers(pre, l);
      assert langs == pre + [langs[|langs| - 1]];
    }
  }

  /**
   * The desktop RTL list: the sorted targets filtered to right-to-left ones.
   * A code is listed exactly when some target (not the source) is right to
   * left with that code.
   */
  function DesktopRtlCodes(info: ProjectInfo): seq<string> {
    RtlCodes(RtlLanguages(SortBy(info.targetLanguages, LocaleOf)))
  }

  lemma DesktopRtlMembers(info: ProjectInfo, c: string)
    ensures c in DesktopRtlCodes(info) <==>
            exists i :: 0 <= i < |info.targetLanguages| && info.targetLanguages[i].textDirection == "rtl"
                        && info.targetLanguages[i].twoLettersCode == c
  {
    var ts := info.targetLanguages;
    var sorted := SortBy(ts, LocaleOf);
    var rtl := RtlLanguages(sorted);
    assert c in DesktopRtlCodes(info) <==> c in multiset(Codes(rtl));
    CodesMember(rtl, c);
    if c in DesktopRtlCodes(info) {
      RtlCodeSound(ts, sorted, rtl, c);
    }
    if exists i :: 0 <= i < |ts| && ts[i].textDirection == "rtl" && ts[i].twoLettersCode == c {
      RtlCodeComplete(ts, sorted, rtl, c);
    }
  }

  /** A code is listed exactly when some language of the list has it. */
  lemma CodesMember(langs: seq<Language>, c: string)
    ensures c in multiset(Codes(langs)) <==> exists k :: 0 <= k < |langs| && langs[k].twoLettersCode == c
  {
    var cs := Codes(langs);
    if c in multiset(cs) {
      var k :| 0 <= k < |cs| && cs[k] == c;
      assert langs[k].twoLettersCode == c;
    }
    if k :| 0 <= k < |langs| && langs[k].twoLettersCode == c {
      assert cs[k] == c;
    }
  }

  lemma RtlCodeSound(ts: seq<Language>, sorted: seq<Language>, rtl: seq<Language>, c: string)
    requires multiset(sorted) == multiset(ts) && rtl == RtlLanguages(sorted)
    requires exists k :: 0 <= k < |rtl| && rtl[k].twoLettersCode == c
    ensures exists i :: 0 <= i < |ts| && ts[i].textDirection == "rtl" && ts[i].twoLettersCode == c
  {
    var k :| 0 <= k < |rtl| && rtl[k].twoLettersCode == c;
    RtlMembers(sorted, rtl[k]);
    assert rtl[k] in multiset(ts);
    var i :| 0 <= i < |ts| && ts[i] == rtl[k];
  }

  lemma RtlCodeComplete(ts: seq<Language>, sorted: seq<Language>, rtl: seq<Language>, c: string)
    requires multiset(sorted) == multiset(ts) && rtl == RtlLanguages(sorted)
    requires exists i :: 0 <= i < |ts| && ts[i].textDirection == "rtl" && ts[i].twoLettersCode == c
    ensures exists k :: 0 <= k < |rtl| && rtl[k].twoLettersCode == c
  {
    var i :| 0 <= i < |ts| && ts[i].textDirection == "rtl" && ts[i].twoLettersCode == c;
    assert ts[i] in multiset(sorted);
    RtlMembers(sorted, ts[i]);
    var k :| 0 <= k < |rtl| && rtl[k] == ts[i];
  }

  /** Two right-to-left targets sharing the code `ar` list it twice: nothing is deduplicated. */
  lemma RtlNotDeduplicated()
    ensures RtlCodes([Language("ar-EG", "ar", "rtl"), Language("ar-SA", "ar", "rtl")]) == ["ar", "ar"]
  {
    var ls := [Language("ar-EG", "ar", "rtl"), Language("ar-SA", "ar", "rtl")];
    var r := RtlCodes(ls);
    assert Codes(ls) == ["ar", "ar"];
    assert multiset(r) == multiset{"ar", "ar"};
    assert r[0] in multiset(r) && r[1] in multiset(r);
  }
}
