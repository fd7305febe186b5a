/**
 * `convert_non_translatable_strings_to_kotlin`: the Kotlin object holding
 * the glossary's non-translatable strings, and the app name it reports.
 */
module AndroidConstants {
  import opened Wrappers
  import opened PyStr
  import opened Errors
  import opened Project

  const KotlinHeader: string :=
    "package org.session.libsession.utilities\n" + "\n"
    + "// Non-translatable strings for use with the UI\n" + "object NonTranslatableStringConstants {\n"
  const KotlinFooter: string := "}\n" + "\n"
  const LinePrefix: string := "    const val "
  const Assign: string := " = \""
  const AppNameKey: string := "APP_NAME"

  /** The constant's name: the note upper-cased. */
  function KeyOf(e: GlossaryEntry): string {
    Upper(e.note)
  }

  /** `max(len(note.upper()) for ...)` over a non-empty glossary. */
  function MaxKeyLength(entries: seq<GlossaryEntry>): (w: nat)
    requires entries != []
    ensures forall i :: 0 <= i < |entries| ==> |KeyOf(entries[i])| <= w
    ensures exists i :: 0 <= i < |entries| && |KeyOf(entries[i])| == w
  {
    var last := |KeyOf(entries[|entries| - 1])|;
    if |entries| == 1 then last
    else
      var m := MaxKeyLength(entries[..|entries| - 1]);
      assert forall i :: 0 <= i < |entries| - 1 ==> entries[..|entries| - 1][i] == entries[i];
      if m < last then last else m
  }

  /** One `const val` line, the key left-justified to `width`. */
  function KotlinLine(e: GlossaryEntry, width: nat): string {
    LinePrefix + PadRight(KeyOf(e), width) + Assign + e.text + "\"\n"
  }

  function LineOf(width: nat): GlossaryEntry -> string {
    e => KotlinLine(e, width)
  }

  /** The file: header, one line per entry in glossary order, footer. */
  function KotlinFile(entries: seq<GlossaryEntry>): string
    requires entries != []
  {
    KotlinHeader + Concat(entries, LineOf(MaxKeyLength(entries))) + KotlinFooter
  }

  /** No entry's key is `APP_NAME`. */
  predicate NoAppName(entries: seq<GlossaryEntry>) {
    forall i :: 0 <= i < |entries| ==> KeyOf(entries[i]) != AppNameKey
  }

  /** Entry `i` is the last one whose key is `APP_NAME`, and its text is `v`. */
  predicate LastAppNameAt(entries: seq<GlossaryEntry>, i: int, v: string) {
    && 0 <= i < |entries| && KeyOf(entries[i]) == AppNameKey && entries[i].text == v
    && forall j :: i < j < |entries| ==> KeyOf(entries[j]) != AppNameKey
  }

  /** The text of the last entry whose key is `APP_NAME`. */
  function AppNameOf(entries: seq<GlossaryEntry>): (r: Option<string>)
    ensures r.None? <==> NoAppName(entries)
    ensures r.Some? ==> exists i :: LastAppNameAt(entries, i, r.value)
  {
    if entries == [] then None
    else
      var n := |entries| - 1;
      if KeyOf(entries[n]) == AppNameKey then
        assert LastAppNameAt(entries, n, entries[n].text);
        Some(entries[n].text)
      else
        var r := AppNameOf(entries[..n]);
        AppNameDrop(entries, entries[..n], if r.Some? then r.value else "");
        r
  }

  /** An entry at the end whose key is not `APP_NAME` changes neither fact. */
  lemma AppNameDrop(entries: seq<GlossaryEntry>, pre: seq<GlossaryEntry>, v: string)
    requires entries != [] && pre == entries[..|entries| - 1] && KeyOf(entries[|entries| - 1]) != AppNameKey
    ensures NoAppName(entries) <==> NoAppName(pre)
    ensures (exists i :: LastAppNameAt(pre, i, v)) ==> exists i :: LastAppNameAt(entries, i, v)
  {
    assert forall i :: 0 <= i < |pre| ==> pre[i] == entries[i];
    if i :| LastAppNameAt(pre, i, v) {
      assert LastAppNameAt(entries, i, v);
    }
  }

  lemma AppNameStep(entries: seq<GlossaryEntry>, i: nat)
    requires i < |entries|
    ensures AppNameOf(entries[..i + 1]) == if KeyOf(entries[i]) == AppNameKey then Some(entries[i].text) else AppNameOf(entries[..i])
  {
    assert entries[..i + 1][..i] == entries[..i];
  }

  /** What the conversion returns: the file's text and the app name, or why it stopped. */
  function KotlinConstants(input: Option<seq<GlossaryEntry>>, inputFile: string): Result<(string, Option<string>), Error> {
    if input.None? then Failure(MissingInputFile(inputFile))
    else if input.value == [] then Failure(EmptyGlossary)
    else Success((KotlinFile(input.value), AppNameOf(input.value)))
  }

  /** The loop over the glossary: the lines it writes and the last `APP_NAME` text it saw. */
  method WriteEntries(entries: seq<GlossaryEntry>, maxKeyLength: nat) returns (lines: string, appName: Option<string>)
    ensures lines == Concat(entries, LineOf(maxKeyLength))
    ensures appName == AppNameOf(entries)
  {
    appName := None;
    lines := "";
    for i := 0 to |entries|
      invariant lines == Concat(entries[..i], LineOf(maxKeyLength))
      invariant appName == AppNameOf(entries[..i])
    {
      ConcatStep(entries, LineOf(maxKeyLength), i);
      AppNameStep(entries, i);
      var key := KeyOf(entries[i]);
      var text := entries[i].text;
      var line := KotlinLine(entries[i], maxKeyLength);
      assert line == LineOf(maxKeyLength)(entries[i]);
      lines := lines + line;
      if key == AppNameKey {
        appName := Some(text);
      }
    }
    assert entries[..|entries|] == entries;
  }

  /** The conversion: header, the glossary's lines, footer, and the app name found. */
  method ConvertNonTranslatableStringsToKotlin(input: Option<seq<GlossaryEntry>>, inputFile: string)
    returns (r: Result<(string, Option<string>), Error>)
    ensures r == KotlinConstants(input, inputFile)
  {
    if input.None? {
      return Failure(MissingInputFile(inputFile));
    }
    var entries := input.value;
    if |entries| == 0 {
      return Failure(EmptyGlossary);
    }
    var maxKeyLength := MaxKeyLength(entries);
    var lines, appName := WriteEntries(entries, maxKeyLength);
    var file := KotlinHeader + lines + KotlinFooter;
    return Success((file, appName));
  }

  /** Every line puts ` = "` in the same column: keys are padded to the longest key. */
  lemma KeysAligned(entries: seq<GlossaryEntry>, i: nat)
    requires i < |entries|
    ensures var w := MaxKeyLength(entries);
            var line := KotlinLine(entries[i], w);
            |LinePrefix| + w + |Assign| <= |line|
            && line[..|LinePrefix|] == LinePrefix
            && line[|LinePrefix|..|LinePrefix| + w] == PadRight(KeyOf(entries[i]), w)
            && line[|LinePrefix| + w..|LinePrefix| + w + |Assign|] == Assign
  {
    var w := MaxKeyLength(entries);
    var key := PadRight(KeyOf(entries[i]), w);
    assert |key| == w;
    Pieces(LinePrefix, key, Assign + entries[i].text + "\"\n");
    assert KotlinLine(entries[i], w) == LinePrefix + key + (Assign + entries[i].text + "\"\n");
    var rest := Assign + entries[i].text + "\"\n";
    assert rest[..|Assign|] == Assign;
  }

  /** Line `i` comes right after the lines of the entries before it and right before those after it. */
  lemma LinesInOrder(entries: seq<GlossaryEntry>, i: nat)
    requires i < |entries|
    ensures var f := LineOf(MaxKeyLength(entries));
            KotlinFile(entries)
            == KotlinHeader + Concat(entries[..i], f) + KotlinLine(entries[i], MaxKeyLength(entries))
               + Concat(entries[i + 1..], f) + KotlinFooter
  {
    LineAt(entries, MaxKeyLength(entries), i);
  }

  lemma LineAt(entries: seq<GlossaryEntry>, w: nat, i: nat)
    requires i < |entries|
    ensures var f := LineOf(w);
            KotlinHeader + Concat(entries, f) + KotlinFooter
            == KotlinHeader + Concat(entries[..i], f) + KotlinLine(entries[i], w) + Concat(entries[i + 1..], f) + KotlinFooter
  {
    SplitBetween(KotlinHeader, entries, LineOf(w), KotlinFooter, i);
    assert LineOf(w)(entries[i]) == KotlinLine(entries[i], w);
  }
}
