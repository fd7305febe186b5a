# Session crowdin conversion scripts, modelled in Dafny

The Session apps get their translations from Crowdin as XLIFF 1.2 files, one
per locale, plus a project description (source and target languages) and a
glossary of non-translatable strings. Three scripts turn these into each
platform's resources:

- `crowdin/generate_android_strings.py` writes `values*/strings.xml` and a
  Kotlin constants object. The constants writer also returns the app name.
- `crowdin/generate_desktop_strings.py` writes `{locale}/messages.json` with
  ICU plural patterns, a TypeScript enum, and the sorted list of right-to-left
  codes.
- `crowdin/generate_ios_strings.py` builds one String Catalog over all
  locales and writes a Swift `Constants` enum.

This project models all three on an abstract XLIFF element tree. Its modules:

- `Xliff`: the parsed element tree and the ElementTree queries the scripts run
  over it.
- `SharedParse`: the Android and desktop `parse_xliff`. The two are
  textually identical, so they are modelled once. It also models
  `sorted(translations.items())`.
- `AndroidPlaceholders`, `AndroidEscape`, `AndroidStrings`,
  `AndroidConstants`: the Android converter.
- `DesktopStrings`, `DesktopConstants`: the desktop converter.
- `IosParse`, `IosCatalog`, `IosConstants`: the iOS converter. The String
  Catalog is a class whose `strings` map the per-locale loop updates in place.
- `PyDict`: Python's insertion-ordered `dict`, as a sequence of pairs.
  Assigning an existing key keeps its position; a new key is appended.
- `PyStr`: the `str` operations the scripts use (`replace`, `strip`, `split`,
  `upper`/`lower`, `ljust` formatting, `join`, decimal formatting).
- `Ordering`: Python's string ordering and `sorted`.
- `Project`: the project description, the locale processing order and
  `os.path.join`.

Each converting loop is a `method` proved equal to a specification function.
The lemmas then state what the scripts promise about those functions:

- the order of entries and the frame of each output file;
- the escaping and numbering rules;
- which unit wins when keys repeat;
- which catalog shape a plural gets;
- that adding one locale to the catalog leaves the other languages alone.

Things handed in from outside are parameters:

- `html.unescape` is `unescape: string -> string`;
- `json.dump` is `dump`;
- Python's printing of a one-element set is `setRepr`;
- the file system is `files: string -> Option<Document>`;
- the current year is `year`.

Behaviours of the code worth noting:

- A repeated placeholder name does not reuse its number. Each occurrence is
  numbered one more than the count of distinct names before it, so `{a}{a}`
  becomes `%1$s%2$s` (`AndroidPlaceholders.RepeatedNameRenumbered`).
- Positional numbering is applied to plural items only. Simple strings are
  only escaped (`AndroidStrings.SimpleEntryVerbatim`,
  `AndroidStrings.PluralItemValue`).
- The desktop list of right-to-left codes is sorted but not deduplicated
  (`DesktopConstants.RtlNotDeduplicated`).
- A plural group's key comes from its first unit that has a `resname`
  attribute; units without one are passed over (`SharedParse.GroupResname`).
- A plural unit without a `<context-group>`, or whose plural-form context has
  no text, is not skipped on Android and desktop. Python raises there; this is
  the error `MalformedPluralUnit` (`SharedParse.ParseFailure`). The iOS
  parser checks for the context group, so there only the missing form text
  raises (`IosParse.IosParseSpec`).
- On iOS, a plural whose raw forms contain `{count}` gets plain
  `variations`. One whose forms do not gets the `%#@arg1@` substitution.
  In both shapes every form goes through the `{count}` → `%lld` replacement
  and `clean_string` (`IosCatalog.LocalizationShape`).
- The desktop converter writes JSON for the target languages only. The source
  language is not converted (`DesktopStrings.DesktopLocales`).

## Model

| member | source | states |
|---|---|---|
| PyDict.Get | crowdin/generate_android_strings.py:49 | `d.get(k)` is present exactly when `k` is a key, and then it is the value stored with `k` |
| PyDict.PutKeys | crowdin/generate_android_strings.py:42 | assigning an existing key keeps the key order; assigning a new key appends it |
| PyDict.PutGet | crowdin/generate_android_strings.py:42 | after `d[k] = v`, `k` reads back `v` and every other key reads as before |
| PyDict.PutValid | crowdin/generate_android_strings.py:42 | assignment never makes a key appear twice |
| PyDict.PutAllGet | crowdin/generate_android_strings.py:41-42 | after a run of assignments, a key holds the last value assigned to it, or its old value if none was |
| PyDict.PutAllNewGet | crowdin/generate_android_strings.py:47-52 | with the "only if not already a key" guard, a key keeps its old value, or else gets the first value offered for it |
| PyDict.PutAllValid | crowdin/generate_android_strings.py:28-54 | a dict built by assignments, guarded or not, has distinct keys |
| PyDict.PutAllFresh | crowdin/generate_desktop_strings.py:90-93 | assigning pairs with distinct keys into an empty dict gives exactly those pairs, in that order |
| PyDict.ValidPermutation | crowdin/generate_desktop_strings.py:89 | reordering a dict's items (as `sorted` does) keeps the keys distinct |
| PyDict.PutPut | crowdin/generate_ios_strings.py:107-111 | a second assignment to the same key replaces the first and leaves the position unchanged |
| PyDict.LastWithCollect | crowdin/generate_ios_strings.py:36-48 | when each element gives at most one pair, the last pair with key `k` has value `v` exactly when the last element giving `k` gives `(k, v)` |
| PyDict.FirstWithCollect | crowdin/generate_android_strings.py:47-52 | when each element gives at most one pair, the first pair with key `k` has value `v` exactly when the first element giving `k` gives `(k, v)` |
| PyStr.Replace | crowdin/generate_android_strings.py:71-77 | `str.replace` leaves a text without the pattern unchanged |
| PyStr.ReplaceEscapes | crowdin/generate_android_strings.py:71 | after replacing every `c` by a backslash and `c`, every `c` is preceded by a backslash |
| PyStr.ReplaceKeepsEscaped | crowdin/generate_android_strings.py:72-77 | a later replacement whose pattern and replacement avoid `c` and whose pattern avoids the backslash keeps every `c` escaped |
| PyStr.ReplaceRemoves | crowdin/generate_desktop_strings.py:76 | after replacing a pattern by a text that lacks its first character and does not start with one of its characters, the pattern no longer occurs |
| PyStr.ReplaceKeepsAbsent | crowdin/generate_android_strings.py:73-77 | a replacement that cannot start or continue a text `q` keeps a `q`-free text `q`-free |
| PyStr.Strip | crowdin/generate_ios_strings.py:74 | `str.strip` returns the text with only whitespace removed from both ends, and the result neither starts nor ends with whitespace |
| PyStr.StripIdempotent | crowdin/generate_ios_strings.py:74 | stripping twice is stripping once |
| PyStr.UpperAt | crowdin/generate_android_strings.py:155 | ASCII upper-casing keeps the length and maps each character on its own (`a`-`z` to `A`-`Z`, all else unchanged) |
| PyStr.LowerAt | crowdin/generate_android_strings.py:41 | ASCII lower-casing keeps the length and maps each character on its own (`A`-`Z` to `a`-`z`, all else unchanged) |
| PyStr.LastField | crowdin/generate_android_strings.py:41 | `split(':')[-1]` is the suffix after the last `:`, or the whole text when there is none |
| PyStr.BeforeFirst | crowdin/generate_android_strings.py:113 | `split('-')[0]` is the prefix before the first `-`, or the whole text when there is none |
| PyStr.AfterFirst | crowdin/generate_android_strings.py:114 | the text after the first separator, which puts the text back together with the prefix and the separator |
| PyStr.PadRight | crowdin/generate_android_strings.py:157 | `{key:<{w}}` is the key followed by spaces up to width `w`, and the key unchanged when it is longer |
| PyStr.NatToString | crowdin/generate_ios_strings.py:185 | `f"{n}"` is a non-empty run of decimal digits with no leading zero |
| PyStr.DecimalRoundTrip | crowdin/generate_ios_strings.py:185 | reading back the decimal text gives the number |
| Ordering.LexIrreflexive | crowdin/generate_android_strings.py:81 | Python's string `<` is irreflexive |
| Ordering.LexTotal | crowdin/generate_android_strings.py:81 | any two different strings are ordered one way or the other |
| Ordering.LexAsymmetric | crowdin/generate_android_strings.py:81 | no two strings are each less than the other |
| Ordering.LexTransitive | crowdin/generate_android_strings.py:81 | string `<` is transitive |
| Ordering.SortBy | crowdin/generate_android_strings.py:181 | `sorted` by a key returns a permutation of its input in ascending key order |
| Project.ProcessingOrder | crowdin/generate_android_strings.py:178-194 | locales are processed with the source first, then all targets in ascending locale order |
| Project.PathJoin | crowdin/generate_android_strings.py:117-122 | `os.path.join(a, b)` ends with `b`; an absolute `b` (starting with `/`) is the whole result; for a relative `b` the result begins with `a` and a `/` |
| Project.PathJoinExamples | crowdin/generate_android_strings.py:117-122 | `out` and `values` join with a `/`, `out/` and `values` do not get a second one, and an absolute `/abs.xliff` discards `in` |
| Xliff.DirectUnits | crowdin/generate_android_strings.py:34 | `group.findall('ns:trans-unit')` finds only the group's direct trans-unit children, and every one of them |
| Xliff.DirectUnitsAppend | crowdin/generate_android_strings.py:34 | the units of two runs of children are the first run's units followed by the second's, so `findall` keeps document order |
| Xliff.FirstFile | crowdin/generate_ios_strings.py:28-30 | `root.find('ns:file')` is the first `file` child of the root (no `file` child comes before it), and is missing exactly when the root has none |
| Xliff.UnitForm | crowdin/generate_android_strings.py:37-42 | a plural unit contributes at most one form and its text |
| SharedParse.GroupResname | crowdin/generate_android_strings.py:33-36 | a plural group's key is the `resname` of its first unit that has one, and is missing when none does |
| SharedParse.ReadPluralUnit | crowdin/generate_android_strings.py:37-42 | reading one unit fails exactly when it is malformed, and otherwise adds or overwrites its one form |
| SharedParse.ReadPluralGroup | crowdin/generate_android_strings.py:32-42 | the group loop fails exactly when some unit is malformed, and otherwise yields the group's key and form map |
| SharedParse.AddSimpleTranslations | crowdin/generate_android_strings.py:47-52 | the unit loop adds each unit with target text under its `resname`, unless that key is already present |
| SharedParse.ParseXliff | crowdin/generate_android_strings.py:24-54 | `parse_xliff` returns plural groups first and then simple strings, or the error |
| SharedParse.GroupFormsLookup | crowdin/generate_android_strings.py:40-42 | a form holds text `v` exactly when the last unit naming that form had target `v` |
| SharedParse.GroupEntryMeaning | crowdin/generate_android_strings.py:43-44 | a group is stored exactly when its key is set and non-empty and it yielded at least one form |
| SharedParse.PluralLookup | crowdin/generate_android_strings.py:30-44 | a key holds a plural exactly when some group is stored under it; the value is the last such group's forms |
| SharedParse.ParsePluralValue | crowdin/generate_android_strings.py:30-54 | in the parsed map a key holds forms `f` exactly when the last group stored under that key has forms `f` |
| SharedParse.SimpleOnly | crowdin/generate_android_strings.py:47-52 | the unit loop only ever adds simple strings |
| SharedParse.SimpleLookup | crowdin/generate_android_strings.py:47-52 | the first value offered for a key is `v` exactly when the first unit under that key with target text has target `v` |
| SharedParse.ParseSimpleValue | crowdin/generate_android_strings.py:47-52 | in the parsed map a key holds the simple string `v` exactly when no group is stored under it and the first unit under it with target text has target `v` |
| SharedParse.PluralOnly | crowdin/generate_android_strings.py:43-44 | the group loop only ever stores plurals |
| SharedParse.ParseFailure | crowdin/generate_android_strings.py:38-41 | parsing fails exactly when some plural unit has no context group, or has target text but a plural-form context without text |
| SharedParse.ParseValid | crowdin/generate_android_strings.py:28-54 | the parsed map never repeats a key |
| SharedParse.SortedItems | crowdin/generate_android_strings.py:81 | `sorted(items)` raises exactly when a missing key sits beside another key; otherwise it is a permutation of the items in ascending key order |
| AndroidPlaceholders.CloseFrom | crowdin/generate_android_strings.py:66 | the next `}` at or after `i`, if any |
| AndroidPlaceholders.CloseFromFirst | crowdin/generate_android_strings.py:66 | no `}` lies between `i` and the one found, and none at all when none is found |
| AndroidPlaceholders.MatchAt | crowdin/generate_android_strings.py:66 | a match found at `i` is at least three characters long |
| AndroidPlaceholders.MatchAtMeaning | crowdin/generate_android_strings.py:66 | `\{([^}]+)\}` matches at `i` exactly when `{`, one or more non-`}` characters and `}` start there |
| AndroidPlaceholders.RenderTokensFrom | crowdin/generate_android_strings.py:66 | splitting the text into placeholders and literal characters loses nothing: rendering the tokens gives the text back |
| AndroidPlaceholders.PlaceholderNames | crowdin/generate_android_strings.py:66 | every placeholder name is non-empty and contains no `}` |
| AndroidPlaceholders.FindAllSplit | crowdin/generate_android_strings.py:59 | `findall` over a text is `findall` over a prefix ending at a match boundary, followed by `findall` over the rest |
| AndroidPlaceholders.FindAllAdvance | crowdin/generate_android_strings.py:59 | moving past one more token adds that token's name, if any, to the names found before it |
| AndroidPlaceholders.NameSetAppend | crowdin/generate_android_strings.py:59 | the distinct names of two lists are the union of each list's distinct names |
| AndroidPlaceholders.SubFromPositional | crowdin/generate_android_strings.py:57-66 | the rest of the substitution is the reference numbering, seeded with the names found before that point |
| AndroidPlaceholders.ConvertIsPositional | crowdin/generate_android_strings.py:56-66 | `convert_placeholders` equals the reference reading. Each placeholder is numbered one more than the count of distinct names before it, with `$d` for `count`, `found_count` and `total_count` and `$s` otherwise; literal text is kept |
| AndroidPlaceholders.PositionalPlain | crowdin/generate_android_strings.py:66 | tokens without placeholders render unchanged |
| AndroidPlaceholders.ConvertPlain | crowdin/generate_android_strings.py:66 | a text without placeholders is returned unchanged |
| AndroidPlaceholders.RepeatedNameRenumbered | crowdin/generate_android_strings.py:59 | `{a}{a}` becomes `%1$s%2$s`: a repeated name is not given its earlier number |
| AndroidPlaceholders.NumericSpecifier | crowdin/generate_android_strings.py:11 | `{count}` becomes `%1$d` |
| AndroidEscape.EscapePlain | crowdin/generate_android_strings.py:71-77 | a text with none of the seven patterns passes through unchanged |
| AndroidEscape.PlainFrom | crowdin/generate_android_strings.py:71-77 | once no later pattern occurs, the remaining replacements change nothing |
| AndroidEscape.StaysEscaped | crowdin/generate_android_strings.py:72-77 | a character escaped after step `k` stays escaped through the later steps that avoid it |
| AndroidEscape.ApostrophesEscaped | crowdin/generate_android_strings.py:71-78 | every `'` in the output is preceded by a backslash |
| AndroidEscape.QuotesEscaped | crowdin/generate_android_strings.py:72-78 | every `"` in the output is preceded by a backslash; this covers both a literal `"` and `&quot;` |
| AndroidEscape.NoLineBreakTag | crowdin/generate_android_strings.py:77 | no `<br/>` is left in the output |
| AndroidEscape.EntityGone | crowdin/generate_android_strings.py:71-78 | once a step's pattern is replaced by a text that can neither start nor continue it, and no later replacement can either, the pattern is not in the output |
| AndroidEscape.StaysAbsent | crowdin/generate_android_strings.py:73-77 | a text absent after step `k` stays absent through later replacements that cannot start or continue it |
| AndroidEscape.NoQuotEntity | crowdin/generate_android_strings.py:72-78 | no `&quot;` is left in the output |
| AndroidEscape.NoBoldOpenEntity | crowdin/generate_android_strings.py:74-78 | no `&lt;b&gt;` is left in the output |
| AndroidEscape.NoBoldCloseEntity | crowdin/generate_android_strings.py:75-78 | no `&lt;/b&gt;` is left in the output |
| AndroidEscape.NoBreakEntity | crowdin/generate_android_strings.py:76-78 | no `&lt;/br&gt;` is left in the output |
| AndroidEscape.EscapeExample | crowdin/generate_android_strings.py:71 | `It's` becomes `It\'s` |
| AndroidEscape.QuotEntityExample | crowdin/generate_android_strings.py:72-73 | `&quot;` becomes `\"`: the entity turns into `"`, which the next step escapes |
| AndroidStrings.AndroidXmlFrame | crowdin/generate_android_strings.py:82-99 | the XML begins with the declaration and `<resources>`, ends with `</resources>`, and holds the app-name line followed by the entries |
| AndroidStrings.GenerateAndroidXmlSpec | crowdin/generate_android_strings.py:80-101 | the XML is built from the items in ascending key order; it fails exactly when `sorted` raises |
| AndroidStrings.PluralsElement | crowdin/generate_android_strings.py:90-94 | a plural entry is `<plurals>` with one `<item>` per form, in the form map's order |
| AndroidStrings.RenderEntries | crowdin/generate_android_strings.py:88-97 | the entry loop writes each entry's element in order |
| AndroidStrings.GenerateAndroidXml | crowdin/generate_android_strings.py:80-101 | `generate_android_xml` returns the text of its specification, or the sorting error |
| AndroidStrings.EntriesInOrder | crowdin/generate_android_strings.py:85-97 | the document is the declaration, the `<resources>` line, the app-name line, the elements of the entries before `i`, entry `i`'s element, the elements of the entries after it, and the closing tag |
| AndroidStrings.SimpleEntryVerbatim | crowdin/generate_android_strings.py:95-97 | a simple string with nothing to escape is written as is, with any `{name}` placeholder left unnumbered |
| AndroidStrings.PluralItemValue | crowdin/generate_android_strings.py:91-93 | a plural item's value is its form text with placeholders numbered, when nothing needs escaping |
| AndroidStrings.MainDirectory | crowdin/generate_android_strings.py:108-119 | the first directory is `values` exactly for the source locale, and `values-{lang}` otherwise |
| AndroidStrings.RegionDirectory | crowdin/generate_android_strings.py:113-127 | a second directory `values-{lang}-r{region}` is written exactly when the text after the first `-` has a non-empty first field |
| AndroidStrings.RegionDirectoryExample | crowdin/generate_android_strings.py:113-127 | `pt-BR` is written to `values-pt` and `values-pt-rBR` |
| AndroidStrings.ConvertXliffToAndroidXml | crowdin/generate_android_strings.py:103-131 | a missing file, a parse error and a sorting error are reported; otherwise one file per output directory is written |
| AndroidStrings.ConvertWrites | crowdin/generate_android_strings.py:108-131 | each written file is `strings.xml` in its directory and holds the same XML; the app name is passed only for the source locale |
| AndroidConstants.MaxKeyLength | crowdin/generate_android_strings.py:143 | the width is the length of the longest upper-cased note |
| AndroidConstants.AppNameOf | crowdin/generate_android_strings.py:144-165 | the app name is the text of the last entry whose upper-cased note is `APP_NAME`, and is missing when there is none |
| AndroidConstants.AppNameStep | crowdin/generate_android_strings.py:159-160 | each `APP_NAME` entry replaces the app name found so far |
| AndroidConstants.WriteEntries | crowdin/generate_android_strings.py:154-160 | the entry loop writes one line per entry in order and tracks the app name |
| AndroidConstants.ConvertNonTranslatableStringsToKotlin | crowdin/generate_android_strings.py:133-165 | the Kotlin writer returns the file text and the app name, or the missing-file or empty-glossary error |
| AndroidConstants.KeysAligned | crowdin/generate_android_strings.py:155-157 | every line holds its upper-cased note padded to the common width, then ` = "` |
| AndroidConstants.LinesInOrder | crowdin/generate_android_strings.py:150-157 | the file is the header, the lines of the entries before `i`, entry `i`'s line, the lines of the entries after it, and the footer |
| DesktopStrings.OutputLocaleFallback | crowdin/generate_desktop_strings.py:96 | the output locale is the locale's mapping, else the two-letter code's mapping, else the code itself |
| DesktopStrings.MappedLocalesKeepName | crowdin/generate_desktop_strings.py:16-23 | the six mappings after `en-US` and `kmr-TR` keep the locale's full name |
| DesktopStrings.OutputLocaleExamples | crowdin/generate_desktop_strings.py:13-25 | `en-US` maps to `en` and `es-419` to `es-419`; an unmapped `fr-FR` with code `fr` goes to `fr` |
| DesktopStrings.AllowedForms | crowdin/generate_desktop_strings.py:73-74 | the kept forms are no more than the given ones |
| DesktopStrings.Parts | crowdin/generate_desktop_strings.py:77 | one part per kept form |
| DesktopStrings.AllowedFormsStep | crowdin/generate_desktop_strings.py:73-77 | each form is appended when it is an ICU category and dropped otherwise |
| DesktopStrings.AllowedFormsMembers | crowdin/generate_desktop_strings.py:74 | a form is kept exactly when it was given and is one of the eight ICU categories |
| DesktopStrings.AllowedFormsAppend | crowdin/generate_desktop_strings.py:73-77 | filtering keeps the order of the forms |
| DesktopStrings.AllowedFormsAll | crowdin/generate_desktop_strings.py:74 | forms that are all ICU categories are all kept |
| DesktopStrings.NoAllowedForms | crowdin/generate_desktop_strings.py:79 | with no ICU category among the forms, the pattern is `{count, plural, }` |
| DesktopStrings.CountReplaced | crowdin/generate_desktop_strings.py:76 | no `{count}` is left after the replacement by `#` |
| DesktopStrings.IcuPatternExample | crowdin/generate_desktop_strings.py:73-79 | `one: {count}`, `bogus: x`, `other:` (empty) gives `{count, plural, one [#] other []}` |
| DesktopStrings.GenerateIcuPattern | crowdin/generate_desktop_strings.py:70-81 | `generate_icu_pattern` gives the pattern of its specification; a simple string comes back only unescaped |
| DesktopStrings.Converted | crowdin/generate_desktop_strings.py:92-93 | one converted pair per sorted item |
| DesktopStrings.ConvertedInOrder | crowdin/generate_desktop_strings.py:89-93 | for items with distinct keys, the converted map lists each item's key with its pattern, in the sorted order |
| DesktopStrings.ConvertTranslations | crowdin/generate_desktop_strings.py:90-93 | the conversion loop builds that map |
| DesktopStrings.JsonFile | crowdin/generate_desktop_strings.py:83-104 | the file is `{output_locale}/messages.json` and holds the dumped map of the sorted items followed by two newlines; a missing file, a parse error and a sorting error are reported |
| DesktopStrings.ConvertXliffToJson | crowdin/generate_desktop_strings.py:83-104 | `convert_xliff_to_json` writes what its specification says |
| DesktopStrings.ConvertedParsedItems | crowdin/generate_desktop_strings.py:88-93 | for a parsed document whose items sort, the written map holds every parsed key once, with its pattern, in ascending key order |
| DesktopStrings.ConvertedPermuted | crowdin/generate_desktop_strings.py:88-93 | converting any reordering of a map with distinct keys keeps distinct keys and the length, and lists every original item's key with its pattern |
| DesktopStrings.DesktopLocales | crowdin/generate_desktop_strings.py:149-167 | the converted locales are exactly the targets, in ascending locale order |
| DesktopConstants.RtlLanguages | crowdin/generate_desktop_strings.py:156 | the right-to-left filter keeps no more than it is given |
| DesktopConstants.Codes | crowdin/generate_desktop_strings.py:116 | one two-letter code per language |
| DesktopConstants.RtlCodes | crowdin/generate_desktop_strings.py:116 | the codes are sorted and are a permutation of the languages' codes, duplicates included |
| DesktopConstants.RtlStep | crowdin/generate_desktop_strings.py:156 | each language is kept when its direction is `rtl` and dropped otherwise |
| DesktopConstants.RtlMembers | crowdin/generate_desktop_strings.py:156 | a language is kept exactly when it was given and is right to left |
| DesktopConstants.DesktopRtlMembers | crowdin/generate_desktop_strings.py:116-162 | a code is listed exactly when some target language is right to left with that code |
| DesktopConstants.RtlNotDeduplicated | crowdin/generate_desktop_strings.py:116 | two right-to-left targets with code `ar` list `ar` twice |
| DesktopConstants.TypeScriptConstants | crowdin/generate_desktop_strings.py:106-108 | the conversion fails exactly when the glossary file is missing, and with that error |
| DesktopConstants.WriteEnumLines | crowdin/generate_desktop_strings.py:125-128 | the entry loop writes one enum member per entry, in order |
| DesktopConstants.ConvertNonTranslatableStringsToTypeScript | crowdin/generate_desktop_strings.py:106-133 | the TypeScript writer produces the enum, the closing lines, the `rtlLocales` line and a blank line |
| DesktopConstants.EnumLinesInOrder | crowdin/generate_desktop_strings.py:124-128 | the file is the enum's opening line, the members before `i`, entry `i`'s member, the members after it, the closing line and the right-to-left line |
| DesktopConstants.EnumLineKey | crowdin/generate_desktop_strings.py:126-128 | a member is `  {note} = '{text}',` with the note as written, not upper-cased |
| IosParse.UnitKey | crowdin/generate_ios_strings.py:37-39 | a unit's key is its non-empty `resname`, else its `id`; a unit with neither has no key |
| IosParse.UnitText | crowdin/generate_ios_strings.py:44-48 | a unit's value is its target text if non-empty, else its source text if non-empty, else none |
| IosParse.IosSimpleEntry | crowdin/generate_ios_strings.py:36-48 | a unit gives at most one simple entry |
| IosParse.IosGroupKey | crowdin/generate_ios_strings.py:54-57 | a group's key is the key of its first unit that has one |
| IosParse.IosGroupKeyStep | crowdin/generate_ios_strings.py:56-57 | the key is set once and never replaced |
| IosParse.IosGroupEntry | crowdin/generate_ios_strings.py:65-66 | a group gives at most one plural entry |
| IosParse.IosParseSpec | crowdin/generate_ios_strings.py:22-68 | parsing fails without a `file` element, without `target-language`, or when a plural form's context has no text; otherwise it returns the map and the target language |
| IosParse.ReadPluralUnit | crowdin/generate_ios_strings.py:58-64 | reading one unit fails exactly when its form text is missing, and otherwise adds or overwrites its form |
| IosParse.ReadPluralGroup | crowdin/generate_ios_strings.py:53-64 | the group loop fails exactly when some unit's form text is missing, and otherwise yields the key and form map |
| IosParse.AddUnitTranslations | crowdin/generate_ios_strings.py:36-48 | the unit loop assigns every keyed unit's value, in document order |
| IosParse.AddPluralTranslations | crowdin/generate_ios_strings.py:52-66 | the group loop assigns every stored group after the units, or fails |
| IosParse.IosParseXliff | crowdin/generate_ios_strings.py:22-68 | `parse_xliff` returns what its specification says |
| IosParse.IosGroupEntryMeaning | crowdin/generate_ios_strings.py:65-66 | a group is stored exactly when its key is non-empty and it yielded at least one form |
| IosParse.PluralOverwrites | crowdin/generate_ios_strings.py:52-66 | a key holds forms `f` exactly when the last group stored under it has forms `f`, whatever units came before |
| IosParse.SimpleOnlyFromUnits | crowdin/generate_ios_strings.py:45-48 | the unit loop only assigns simple strings |
| IosParse.UnitLastWins | crowdin/generate_ios_strings.py:36-48 | after the unit loop a key holds `v` exactly when the last unit with that key and a value gives `v` |
| IosParse.NoGroupKeepsUnits | crowdin/generate_ios_strings.py:52-66 | a key no group is stored under keeps its unit value; a simple value in the result is a unit value |
| IosParse.SimpleLastWins | crowdin/generate_ios_strings.py:36-66 | a key holds the simple string `v` exactly when no group is stored under it and the last unit with that key and a value gives `v` |
| IosParse.PluralOnlyFromGroups | crowdin/generate_ios_strings.py:65-66 | the group loop only assigns plurals |
| IosParse.IosParseValid | crowdin/generate_ios_strings.py:26-68 | the parsed map never repeats a key |
| IosCatalog.CleanString | crowdin/generate_ios_strings.py:70-74 | a cleaned string neither starts nor ends with whitespace |
| IosCatalog.CleanStringStable | crowdin/generate_ios_strings.py:70-74 | cleaning twice is cleaning once when unescaping the result changes nothing |
| IosCatalog.CountConverted | crowdin/generate_ios_strings.py:80 | no `{count}` is left after the replacement by `%lld` |
| IosCatalog.ConvertedItems | crowdin/generate_ios_strings.py:79-80 | one converted form per form |
| IosCatalog.ConvertedFormsInOrder | crowdin/generate_ios_strings.py:76-82 | the converted forms keep the forms' names and order, each value cleaned after `{count}` → `%lld` |
| IosCatalog.ConvertedFormsStep | crowdin/generate_ios_strings.py:79-80 | each loop step assigns one more converted form |
| IosCatalog.ConvertPlaceholdersForPlurals | crowdin/generate_ios_strings.py:76-82 | `convert_placeholders_for_plurals` builds that map |
| IosCatalog.FormUnits | crowdin/generate_ios_strings.py:121-129 | one string unit per converted form |
| IosCatalog.LocalizationShape | crowdin/generate_ios_strings.py:113-162 | a simple string gets a single string unit; a plural gets `variations` exactly when a raw form contains `{count}`, and otherwise the `%#@arg1@` substitution with argument 1 and `lld`; every unit is `translated` |
| IosCatalog.PluralForms | crowdin/generate_ios_strings.py:121-155 | in either plural shape, form `i` carries its converted value, in the forms' order |
| IosCatalog.AddLocaleStep | crowdin/generate_ios_strings.py:106-162 | the locale loop handles one more item per step |
| IosCatalog.SetLocalizationEffect | crowdin/generate_ios_strings.py:107-162 | setting a localization sets it for that key and language, creates a missing key as `manual`, and leaves other keys and other languages untouched |
| IosCatalog.SetLocalizationManual | crowdin/generate_ios_strings.py:107-111 | every catalog entry stays `manual` |
| IosCatalog.AddLocaleManual | crowdin/generate_ios_strings.py:106-111 | adding a locale keeps every entry `manual` |
| IosCatalog.AddLocaleEffect | crowdin/generate_ios_strings.py:106-162 | after one locale, each of its keys holds its localization for that language; other keys and other languages are untouched |
| IosCatalog.AddLocaleSets | crowdin/generate_ios_strings.py:106-162 | after one locale, each resname it translates holds its last translation's localization for that language, and every other resname is untouched |
| IosCatalog.AddLocaleKeeps | crowdin/generate_ios_strings.py:131-157 | one locale never changes another language's localization of any resname |
| IosCatalog.UniqueLastWith | crowdin/generate_ios_strings.py:104 | in a dict with distinct keys, the last pair with an item's key is that item |
| IosCatalog.CatalogStep | crowdin/generate_ios_strings.py:91-162 | each locale reads `{locale}.xliff`, reports a missing file or a parse error, and otherwise adds its sorted items under the file's target language |
| IosCatalog.CatalogManual | crowdin/generate_ios_strings.py:107-111 | every entry of the finished catalog is `manual` |
| IosCatalog.LastLocaleLocalized | crowdin/generate_ios_strings.py:104-162 | after the last locale, every key it parsed holds that key's localization under the file's target language |
| IosCatalog.PrefixFailure | crowdin/generate_ios_strings.py:95-101 | the first failing locale stops the run with its error |
| IosCatalog.StringCatalog.constructor | crowdin/generate_ios_strings.py:85-89 | a new catalog has source language `en`, version `1.0` and no strings |
| IosCatalog.StringCatalog.Localize | crowdin/generate_ios_strings.py:107-162 | one assignment into the catalog creates the entry if needed and sets one language's localization |
| IosCatalog.StringCatalog.AddTranslations | crowdin/generate_ios_strings.py:104-162 | the item loop updates the catalog in place, as the locale's specification says |
| IosCatalog.ConvertXliffToStringCatalog | crowdin/generate_ios_strings.py:84-162 | the catalog over all locales, or the first locale's error; source language `en` and version `1.0` |
| IosConstants.SwiftConstants | crowdin/generate_ios_strings.py:170-172 | the conversion fails exactly when the glossary file is missing, and with that error |
| IosConstants.ConvertNonTranslatableStringsToSwift | crowdin/generate_ios_strings.py:170-197 | the Swift writer produces the header, the enum with one constant per entry, and the closing lines |
| IosConstants.SwiftFileFrame | crowdin/generate_ios_strings.py:185-197 | the file begins with the header and `public enum Constants {`, ends with `}` and a blank line, and holds the constants between them |
| IosConstants.SwiftLinesInOrder | crowdin/generate_ios_strings.py:191-194 | the file is the header, the enum's opening line, the constants before `i`, entry `i`'s constant, the constants after it, and the closing lines |
| IosConstants.SwiftLineKey | crowdin/generate_ios_strings.py:192-194 | a constant is `    public static let {note}: String = "{text}"` with the note and text as written |
| IosConstants.HeaderYear | crowdin/generate_ios_strings.py:185 | the header names the given year, and the year reads back from it |

## Left out

- `crowdin/download_translations_from_crowdin.py`: an HTTP client with no conversion logic. It is not part of this model.
- XML parsing and JSON reading and writing: the XLIFF file is the element tree `Xliff.Document`, and the glossary and project files are values. `json.dump` is the parameter `dump`, and the String Catalog is the class `IosCatalog.StringCatalog`, not JSON text. The file name `Localizable.xcstrings` and `json.dump` of the catalog are not modelled.
- `html.unescape`: the full HTML5 entity table is a library. It is the parameter `unescape`, and every desktop and iOS property holds for any such function.
- File I/O, `os.makedirs`, `argparse`, the progress prints and the exit codes. A missing input file is the error `MissingInputFile`. Android writes are returned as (path, content) pairs. The iOS per-locale files are the parameter `files`.
- `datetime.now().year`: the Swift header's year is the parameter `year`.
- The orchestration of `convert_all_files` (Android and iOS) beyond the processing order (`Project.ProcessingOrder`), the desktop locale list (`DesktopStrings.DesktopLocales`) and the desktop right-to-left filter (`DesktopConstants.DesktopRtlCodes`).
- PyStr.Upper, PyStr.Lower, PyStr.UpperAt, PyStr.LowerAt: ASCII case mapping only. Non-ASCII letters are left as they are, so the length never changes; Python's `str.upper` can lengthen a string (`"ß".upper()` is `"SS"`). The Kotlin writer pads by `len(note.upper())`, so for a note whose upper-case form is longer `AndroidConstants.MaxKeyLength` and the padding differ from Python's.
- Ordering.SortBy: does not state stability. Python's `sorted` keeps equal keys in their listed order; the sorted dict items have distinct keys, so this matters only for target languages with equal locales in `Project.ProcessingOrder`.
- DesktopConstants.RtlLine: the `rtlLocales` line prints a one-element Python `set` around the joined codes. That printing is the parameter `setRepr`. The sorted code list itself is modelled.
- IosParse.IosParseSpec: the rethrow of a parse error names an undefined variable, so Python raises `NameError` instead of the intended `ValueError`. The model propagates the parse error itself.
- AndroidConstants.MaxKeyLength: requires a non-empty glossary. `max` over an empty one raises `ValueError`, which the Kotlin writer reports as the error `EmptyGlossary`.
- Xliff.FormKey: no contract of its own. It is the composition of `PyStr.LastField`, `PyStr.Strip` and `PyStr.Lower`, whose contracts hold.
- DesktopStrings.ConvertedInOrder: requires distinct keys. `DesktopStrings.ConvertedParsedItems` discharges this for parsed documents.
- IosCatalog.CleanStringStable: stated only for unescape functions that leave the cleaned string unchanged. `html.unescape` is not idempotent in general.
