/**
 * `convert_non_translatable_strings_to_swift`: the Swift `Constants` enum
 * of the glossary's non-translatable strings.  The copyright year is a
 * parameter.
 */
module IosConstants {
  import opened Wrappers
  import opened PyStr
  import opened Errors
  import opened Project

  /** The five header lines; only the copyright year varies. */
  function SwiftHeader(year: nat): string {
    "// Copyright © " + NatToString(year) + " Rangeproof Pty Ltd. All rights reserved.\n"
    + "// This file is automatically generated and maintained, do not manually edit it.\n"
    + "//\n"
    + "// stringlint:disable\n"
    + "\n"
  }

  const EnumOpen: string := "public enum Constants {\n"
  const EnumClose: string := "}\n" + "\n"

  /** One constant: the note as written and the text in double quotes. */
  function SwiftLine(e: GlossaryEntry): string {
    "    public static let " + e.note + ": String = \"" + e.text + "\"\n"
  }

  /** The Swift file: header, the enum's opening line, one constant per entry in order, the closing lines. */
  function SwiftFile(entries: seq<GlossaryEntry>, year: nat): string {
    SwiftHeader(year) + EnumOpen + Concat(entries, SwiftLine) + EnumClose
  }

  /** What the conversion writes, or why it stopped. */
  function SwiftConstants(input: Option<seq<GlossaryEntry>>, inputFile: string, year: nat): (r: Result<string, Error>)
    ensures r.Failure? <==> input.None?
    ensures r.Failure? ==> r.error == MissingInputFile(inputFile)
  {
    if input.None? then Failure(MissingInputFile(inputFile))
    else Success(SwiftFile(input.value, year))
  }

  /** `convert_non_translatable_strings_to_swift`, writing the constants line by line. */
  method ConvertNonTranslatableStringsToSwift(input: Option<seq<GlossaryEntry>>, inputFile: string, year: nat)
    returns (r: Result<string, Error>)
    ensures r == SwiftConstants(input, inputFile, year)
  {
    if input.None? {
      return Failure(MissingInputFile(inputFile));
    }
    var entries := input.value;
    var file := SwiftHeader(year) + EnumOpen;
    var lines := "";
    for i := 0 to |entries|
      invariant lines == Concat(entries[..i], SwiftLine)
    {
      ConcatStep(entries, SwiftLine, i);
      var key := entries[i].note;
      var text := entries[i].text;
      lines := lines + ("    public static let " + key + ": String = \"" + text + "\"\n");
    }
    assert entries[..|entries|] == entries;
    file := file + lines;
    file := file + "}\n";
    file := file + "\n";
    Associate(SwiftHeader(year) + EnumOpen + lines, "}\n", "\n");
    return Success(file);
  }

  /** The file opens with the header and the enum line and closes the enum. */
  lemma SwiftFileFrame(entries: seq<GlossaryEntry>, year: nat)
    ensures var f := SwiftFile(entries, year);
            var h := |SwiftHeader(year)| + |EnumOpen|;
            && h + |EnumClose| <= |f|
            && f[..h] == SwiftHeader(year) + EnumOpen
            && f[|f| - |EnumClose|..] == EnumClose
            && f[h..|f| - |EnumClose|] == Concat(entries, SwiftLine)
  {
    Pieces(SwiftHeader(year) + EnumOpen, Concat(entries, SwiftLine), EnumClose);
  }

  /** Entry `i`'s constant comes right after the constants before it and right before those after it. */
  lemma SwiftLinesInOrder(entries: seq<GlossaryEntry>, year: nat, i: nat)
    requires i < |entries|
    ensures SwiftFile(entries, year)
            == SwiftHeader(year) + EnumOpen + Concat(entries[..i], SwiftLine) + SwiftLine(entries[i])
               + Concat(entries[i + 1..], SwiftLine) + EnumClose
  {
    SplitBetween(SwiftHeader(year) + EnumOpen, entries, SwiftLine, EnumClose, i);
  }

  /** A constant keeps the note exactly as its name and the text exactly as its value. */
  lemma SwiftLineKey(e: GlossaryEntry)
    ensures var l := SwiftLine(e);
            var lead := "    public static let ";
            var mid := ": String = \"";
            && |l| == |lead| + |e.note| + |mid| + |e.text| + 2
            && l[..|lead|] == lead && l[|lead|..|lead| + |e.note|] == e.note
            && l[|lead| + |e.note|..|lead| + |e.note| + |mid|] == mid
            && l[|lead| + |e.note| + |mid|..|lead| + |e.note| + |mid| + |e.text|] == e.text
  {
    var lead := "    public static let ";
    var mid := ": String = \"";
    var l := SwiftLine(e);
    Frame(lead, e.note, mid, e.text, "\"\n");
    assert l == lead + e.note + mid + e.text + "\"\n";
    Pieces(lead, e.note, mid);
    InnerSlice(lead + e.note + mid, e.text, "\"\n", 0, |e.text|);
  }

  /** The header names the given year, and the year reads back from it. */
  lemma HeaderYear(year: nat)
    ensures var h := SwiftHeader(year);
            var prefix := "// Copyright © ";
            var digits := NatToString(year);
            |prefix| + |digits| <= |h| && h[..|prefix|] == prefix && h[|prefix|..|prefix| + |digits|] == digits
            && DecimalValue(digits) == year
  {
    HeaderPieces("// Copyright © ", NatToString(year), " Rangeproof Pty Ltd. All rights reserved.\n",
                 "// This file is automatically generated and maintained, do not manually edit it.\n",
                 "//\n", "// stringlint:disable\n", "\n");
    DecimalRoundTrip(year);
  }

  /** The first two of seven pieces, read back from their concatenation. */
  lemma HeaderPieces(p: string, d: string, a: string, b: string, c: string, e: string, f: string)
    ensures var h := p + d + a + b + c + e + f;
            |p| + |d| <= |h| && h[..|p|] == p && h[|p|..|p| + |d|] == d
  {
    assert p + d + a + b + c + e + f == p + d + (a + b + c + e + f);
    Pieces(p, d, a + b + c + e + f);
  }
}
