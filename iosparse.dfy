/**
 * The iOS converter's `parse_xliff`: every trans-unit first (keyed by its
 * resname or else its id, valued by its target or else its source), then
 * the plural groups, which overwrite what the first loop stored under
 * their key.  It also returns the `<file>` element's `target-language`.
 */
module IosParse {
  import opened Wrappers
  import opened PyDict
  import opened Errors
  import opened Xliff
  import opened SharedParse

  /** The translations of one document by key; on iOS a key is never missing. */
  type IosTranslations = Dict<string, Translation>

  /** `trans_unit.get('resname') or trans_unit.get('id')`: an empty resname falls back to the id. */
  function UnitKey(u: TransUnit): (r: Option<string>)
    ensures r.Some? <==> HasText(u.resname) || u.id.Some?
  {
    if HasText(u.resname) then u.resname else u.id
  }

  /** The target's text, or else the source's text; `None` when neither has text. */
  function UnitText(u: TransUnit): (r: Option<string>)
    ensures r.Some? ==> r.value != "" && (r == u.target || (!HasText(u.target) && r == u.source))
    ensures r.None? <==> !HasText(u.target) && !HasText(u.source)
  {
    if HasText(u.target) then u.target else if HasText(u.source) then u.source else None
  }

  /** What the first loop stores for a unit: its text under its key, if it has both. */
  function IosSimpleEntry(u: TransUnit): (r: seq<(string, Translation)>)
    ensures |r| <= 1
  {
    var k := UnitKey(u);
    var t := UnitText(u);
    if k.Some? && t.Some? then [(k.value, Simple(t.value))] else []
  }

  /** The key of the first unit of a group that has one. */
  function IosGroupKey(us: seq<TransUnit>): (r: Option<string>)
    ensures r.None? <==> forall i :: 0 <= i < |us| ==> UnitKey(us[i]).None?
    ensures r.Some? ==> exists i :: 0 <= i < |us| && UnitKey(us[i]) == r
                                    && forall j :: 0 <= j < i ==> UnitKey(us[j]).None?
  {
    if us == [] then None
    else
      var p := IosGroupKey(us[..|us| - 1]);
      assert forall i :: 0 <= i < |us| - 1 ==> us[..|us| - 1][i] == us[i];
      if p.Some? then p else UnitKey(us[|us| - 1])
  }

  lemma IosGroupKeyStep(us: seq<TransUnit>, j: nat)
    requires j < |us|
    ensures IosGroupKey(us[..j + 1]) == if IosGroupKey(us[..j]).Some? then IosGroupKey(us[..j]) else UnitKey(us[j])
  {
    assert us[..j + 1][..j] == us[..j];
  }

  /** Group `g` is stored under `k` by the plural-group loop: a non-empty key and some form. */
  predicate IosStoredUnder(g: seq<TransUnit>, k: string) {
    IosGroupKey(g) == Some(k) && k != "" && GroupForms(g) != []
  }

  /** What the plural-group loop stores for a group. */
  function IosGroupEntry(us: seq<TransUnit>): (r: seq<(string, Translation)>)
    ensures |r| <= 1
  {
    var k := IosGroupKey(us);
    var forms := GroupForms(us);
    if k.Some? && k.value != "" && forms != [] then [(k.value, Plural(forms))] else []
  }

  /** A unit of some plural group names a form whose context has no text. */
  predicate HasFormTextMissing(groups: seq<seq<TransUnit>>) {
    exists i, j | 0 <= i < |groups| && 0 <= j < |groups[i]| :: FormTextMissing(groups[i][j])
  }

  predicate NoFormTextMissing(us: seq<TransUnit>) {
    forall i :: 0 <= i < |us| ==> !FormTextMissing(us[i])
  }

  lemma NoFormTextMissingStep(us: seq<TransUnit>, j: nat)
    requires j < |us|
    ensures NoFormTextMissing(us[..j + 1]) <==> NoFormTextMissing(us[..j]) && !FormTextMissing(us[j])
  {
    assert us[..j + 1] == us[..j] + [us[j]];
  }

  lemma HasFormTextMissingStep(groups: seq<seq<TransUnit>>, i: nat)
    requires i < |groups|
    ensures HasFormTextMissing(groups[..i + 1]) <==> HasFormTextMissing(groups[..i]) || !NoFormTextMissing(groups[i])
  {
    var pre, ext := groups[..i], groups[..i + 1];
    assert forall a :: 0 <= a < i ==> ext[a] == pre[a];
    if !NoFormTextMissing(groups[i]) {
      var b :| 0 <= b < |groups[i]| && FormTextMissing(groups[i][b]);
      assert ext[i][b] == groups[i][b];
    }
    if HasFormTextMissing(pre) {
      var a, b :| 0 <= a < |pre| && 0 <= b < |pre[a]| && FormTextMissing(pre[a][b]);
      assert FormTextMissing(ext[a][b]);
    }
    if HasFormTextMissing(ext) {
      var a, b :| 0 <= a < |ext| && 0 <= b < |ext[a]| && FormTextMissing(ext[a][b]);
      if a < i { assert FormTextMissing(pre[a][b]); } else { assert FormTextMissing(groups[i][b]); }
    }
  }

  lemma HasFormTextMissingPrefix(groups: seq<seq<TransUnit>>, i: nat)
    requires i <= |groups|
    ensures HasFormTextMissing(groups[..i]) ==> HasFormTextMissing(groups)
  {
    if HasFormTextMissing(groups[..i]) {
      var a, b :| 0 <= a < i && 0 <= b < |groups[..i][a]| && FormTextMissing(groups[..i][a][b]);
      assert groups[..i][a] == groups[a];
    }
  }

  /** The translations after the trans-unit loop: a later unit with the same key overwrites. */
  function UnitTranslations(doc: Document): IosTranslations {
    PutAll([], Collect(Units(doc.root), IosSimpleEntry))
  }

  /** The translations after both loops. */
  function AllTranslations(doc: Document): IosTranslations {
    PutAll(UnitTranslations(doc), Collect(PluralGroups(doc.root), IosGroupEntry))
  }

  /**
   * The result of `parse_xliff`: the translations and the target language,
   * or the error that stopped it.
   */
  function IosParseSpec(doc: Document): (r: Result<(IosTranslations, string), Error>)
    ensures r == Failure(NoFileElement) <==> forall i :: 0 <= i < |doc.root| ==> !doc.root[i].File?
    ensures r == Failure(NoTargetLanguage) <==> FirstFile(doc.root).Some? && FirstFile(doc.root).value.targetLanguage.None?
    ensures r == Failure(MalformedPluralUnit) <==>
              FirstFile(doc.root).Some? && FirstFile(doc.root).value.targetLanguage.Some? && HasFormTextMissing(PluralGroups(doc.root))
    ensures r.Success? ==> r.value.0 == AllTranslations(doc) && Some(r.value.1) == FirstFile(doc.root).value.targetLanguage
  {
    var f := FirstFile(doc.root);
    if f.None? then Failure(NoFileElement)
    else if f.value.targetLanguage.None? then Failure(NoTargetLanguage)
    else if HasFormTextMissing(PluralGroups(doc.root)) then Failure(MalformedPluralUnit)
    else Success((AllTranslations(doc), f.value.targetLanguage.value))
  }

  /** One unit of a plural group: record the form it names, or crash on a form context without text. */
  method ReadPluralUnit(pluralForms: Dict<string, string>, unit: TransUnit) returns (r: Option<Dict<string, string>>)
    ensures r.None? <==> FormTextMissing(unit)
    ensures r.Some? ==> r.value == if UnitForm(unit) == [] then pluralForms
                                   else Put(pluralForms, UnitForm(unit)[0].0, UnitForm(unit)[0].1)
  {
    if unit.contextGroup.None? {
      assert UnitForm(unit) == [];
      return Some(pluralForms);
    }
    var pluralForm := PluralFormContext(unit.contextGroup.value);
    if HasText(unit.target) && pluralForm.Some? {
      if pluralForm.value.text.None? {
        return None;
      }
      var form := FormKey(pluralForm.value.text.value);
      assert UnitForm(unit) == [(form, unit.target.value)];
      return Some(Put(pluralForms, form, unit.target.value));
    }
    assert UnitForm(unit) == [];
    return Some(pluralForms);
  }

  /** The inner loop over one group: its key and forms, or `None` on a crash. */
  method ReadPluralGroup(group: seq<TransUnit>) returns (r: Option<(Option<string>, Dict<string, string>)>)
    ensures r.None? <==> !NoFormTextMissing(group)
    ensures r.Some? ==> r.value == (IosGroupKey(group), GroupForms(group))
  {
    var pluralForms: Dict<string, string> := [];
    var resname: Option<string> := None;
    var j := 0;
    while j < |group|
      invariant 0 <= j <= |group|
      invariant pluralForms == PutAll([], Collect(group[..j], UnitForm))
      invariant resname == IosGroupKey(group[..j])
      invariant NoFormTextMissing(group[..j])
    {
      var unit := group[j];
      IosGroupKeyStep(group, j);
      CollectSnoc(group, j, UnitForm);
      PutAllStep([], Collect(group[..j], UnitForm), UnitForm(unit));
      NoFormTextMissingStep(group, j);
      if resname.None? {
        resname := UnitKey(unit);
      }
      var next := ReadPluralUnit(pluralForms, unit);
      if next.None? {
        return None;
      }
      pluralForms := next.value;
      j := j + 1;
    }
    assert group[..j] == group;
    return Some((resname, pluralForms));
  }

  /** The trans-unit loop: each keyed unit with text is stored, overwriting an earlier one. */
  method AddUnitTranslations(units: seq<TransUnit>) returns (t: IosTranslations)
    ensures t == PutAll([], Collect(units, IosSimpleEntry))
  {
    t := [];
    for k := 0 to |units|
      invariant t == PutAll([], Collect(units[..k], IosSimpleEntry))
    {
      var unit := units[k];
      CollectSnoc(units, k, IosSimpleEntry);
      PutAllStep([], Collect(units[..k], IosSimpleEntry), IosSimpleEntry(unit));
      var resname := UnitKey(unit);
      if resname.Some? {
        if HasText(unit.target) {
          t := Put(t, resname.value, Simple(unit.target.value));
        } else if HasText(unit.source) {
          t := Put(t, resname.value, Simple(unit.source.value));
        }
      }
    }
    assert units[..|units|] == units;
  }

  /** The plural-group loop, over the translations of the trans-unit loop. */
  method AddPluralTranslations(t0: IosTranslations, groups: seq<seq<TransUnit>>) returns (r: Option<IosTranslations>)
    ensures r.None? <==> HasFormTextMissing(groups)
    ensures r.Some? ==> r.value == PutAll(t0, Collect(groups, IosGroupEntry))
  {
    var translations := t0;
    for i := 0 to |groups|
      invariant translations == PutAll(t0, Collect(groups[..i], IosGroupEntry))
      invariant !HasFormTextMissing(groups[..i])
    {
      CollectSnoc(groups, i, IosGroupEntry);
      PutAllStep(t0, Collect(groups[..i], IosGroupEntry), IosGroupEntry(groups[i]));
      HasFormTextMissingStep(groups, i);
      var read := ReadPluralGroup(groups[i]);
      if read.None? {
        HasFormTextMissingPrefix(groups, i + 1);
        return None;
      }
      var (resname, pluralForms) := read.value;
      if resname.Some? && resname.value != "" && pluralForms != [] {
        translations := Put(translations, resname.value, Plural(pluralForms));
      }
    }
    assert groups[..|groups|] == groups;
    return Some(translations);
  }

  /** `parse_xliff`: the `<file>` checks, then the two loops. */
  method IosParseXliff(doc: Document) returns (r: Result<(IosTranslations, string), Error>)
    ensures r == IosParseSpec(doc)
  {
    var fileElem := FirstFile(doc.root);
    if fileElem.None? {
      return Failure(NoFileElement);
    }
    var targetLanguage := fileElem.value.targetLanguage;
    if targetLanguage.None? {
      return Failure(NoTargetLanguage);
    }
    var translations := AddUnitTranslations(Units(doc.root));
    var withPlurals := AddPluralTranslations(translations, PluralGroups(doc.root));
    if withPlurals.None? {
      return Failure(MalformedPluralUnit);
    }
    return Success((withPlurals.value, targetLanguage.value));
  }

  lemma IosGroupEntryMeaning(g: seq<TransUnit>, k: string, t: Translation)
    ensures IosGroupEntry(g) == [(k, t)] <==> IosStoredUnder(g, k) && t == Plural(GroupForms(g))
    ensures Gives(IosGroupEntry, g, k) <==> IosStoredUnder(g, k)
  {
  }

  /**
   * A key some plural group is stored under holds the forms of the last
   * such group, whatever the trans-unit loop stored there.
   */
  lemma PluralOverwrites(doc: Document, k: string, f: Dict<string, string>)
    ensures Get(AllTranslations(doc), k) == Some(Plural(f)) <==>
            var gs := PluralGroups(doc.root);
            (exists i :: 0 <= i < |gs| && IosStoredUnder(gs[i], k) && f == GroupForms(gs[i])
                         && forall j :: i < j < |gs| ==> !IosStoredUnder(gs[j], k))
  {
    var gs := PluralGroups(doc.root);
    var us := Units(doc.root);
    PutAllGet(UnitTranslations(doc), Collect(gs, IosGroupEntry), k);
    LastWithCollect(gs, IosGroupEntry, k, Plural(f));
    forall i | 0 <= i < |gs|
      ensures (IosGroupEntry(gs[i]) == [(k, Plural(f))] <==> IosStoredUnder(gs[i], k) && f == GroupForms(gs[i]))
           && (Gives(IosGroupEntry, gs[i], k) <==> IosStoredUnder(gs[i], k))
    {
      IosGroupEntryMeaning(gs[i], k, Plural(f));
    }
    if LastWith(Collect(gs, IosGroupEntry), k).None? {
      PutAllGet([], Collect(us, IosSimpleEntry), k);
      SimpleOnlyFromUnits(us, k);
    }
  }

  /** The trans-unit loop only ever stores plain strings. */
  lemma SimpleOnlyFromUnits(us: seq<TransUnit>, k: string)
    ensures LastWith(Collect(us, IosSimpleEntry), k).Some? ==> LastWith(Collect(us, IosSimpleEntry), k).value.Simple?
  {
    var r := LastWith(Collect(us, IosSimpleEntry), k);
    if r.Some? {
      LastWithCollect(us, IosSimpleEntry, k, r.value);
    }
  }

  /** Unit `i` is the last unit with key `k` and some text, and that text is `v`. */
  predicate LastUnitWith(us: seq<TransUnit>, i: int, k: string, v: string) {
    && 0 <= i < |us| && UnitKey(us[i]) == Some(k) && UnitText(us[i]) == Some(v)
    && forall j :: i < j < |us| ==> !(UnitKey(us[j]) == Some(k) && UnitText(us[j]).Some?)
  }

  /** No plural group is stored under `k`. */
  predicate NoGroupUnder(gs: seq<seq<TransUnit>>, k: string) {
    forall i :: 0 <= i < |gs| ==> !IosStoredUnder(gs[i], k)
  }

  /** The trans-unit loop keeps, for each key, the text of the last unit with that key and some text. */
  lemma UnitLastWins(us: seq<TransUnit>, k: string, v: string)
    ensures Get(PutAll([], Collect(us, IosSimpleEntry)), k) == Some(Simple(v)) <==> exists i :: LastUnitWith(us, i, k, v)
  {
    PutAllGet([], Collect(us, IosSimpleEntry), k);
    LastWithCollect(us, IosSimpleEntry, k, Simple(v));
    assert forall i :: 0 <= i < |us| ==>
      (Gives(IosSimpleEntry, us[i], k) <==> UnitKey(us[i]) == Some(k) && UnitText(us[i]).Some?);
    assert forall i :: 0 <= i < |us| ==>
      (IosSimpleEntry(us[i]) == [(k, Simple(v))] <==> UnitKey(us[i]) == Some(k) && UnitText(us[i]) == Some(v));
    if GivesLast(us, IosSimpleEntry, k, Simple(v)) {
      var i :| 0 <= i < |us| && IosSimpleEntry(us[i]) == [(k, Simple(v))]
               && forall j :: i < j < |us| ==> !Gives(IosSimpleEntry, us[j], k);
      assert LastUnitWith(us, i, k, v);
    }
    if exists i :: LastUnitWith(us, i, k, v) {
      var i :| LastUnitWith(us, i, k, v);
      assert IosSimpleEntry(us[i]) == [(k, Simple(v))];
    }
  }

  /** A key no plural group is stored under keeps what the trans-unit loop stored. */
  lemma NoGroupKeepsUnits(doc: Document, k: string)
    ensures NoGroupUnder(PluralGroups(doc.root), k) ==> Get(AllTranslations(doc), k) == Get(UnitTranslations(doc), k)
    ensures Get(AllTranslations(doc), k).Some? && Get(AllTranslations(doc), k).value.Simple? ==>
            NoGroupUnder(PluralGroups(doc.root), k)
  {
    var gs := PluralGroups(doc.root);
    PutAllGet(UnitTranslations(doc), Collect(gs, IosGroupEntry), k);
    LastWithCollectNone(gs, IosGroupEntry, k);
    forall i | 0 <= i < |gs| ensures Gives(IosGroupEntry, gs[i], k) <==> IosStoredUnder(gs[i], k) {
      IosGroupEntryMeaning(gs[i], k, Plural([]));
    }
    PluralOnlyFromGroups(gs, k);
  }

  /**
   * A key no plural group is stored under holds the text of the last
   * trans-unit of the document with that key and some text: its target,
   * or its source when the target has none.
   */
  lemma SimpleLastWins(doc: Document, k: string, v: string)
    ensures Get(AllTranslations(doc), k) == Some(Simple(v)) <==>
            NoGroupUnder(PluralGroups(doc.root), k) && exists i :: LastUnitWith(Units(doc.root), i, k, v)
  {
    NoGroupKeepsUnits(doc, k);
    UnitLastWins(Units(doc.root), k, v);
  }

  /** The plural-group loop only ever stores plural groups. */
  lemma PluralOnlyFromGroups(gs: seq<seq<TransUnit>>, k: string)
    ensures LastWith(Collect(gs, IosGroupEntry), k).Some? ==> LastWith(Collect(gs, IosGroupEntry), k).value.Plural?
  {
    var r := LastWith(Collect(gs, IosGroupEntry), k);
    if r.Some? {
      LastWithCollect(gs, IosGroupEntry, k, r.value);
    }
  }

  /** Parsing never stores the same key twice. */
  lemma IosParseValid(doc: Document)
    ensures Valid(AllTranslations(doc))
  {
    PutAllValid([], Collect(Units(doc.root), IosSimpleEntry));
    PutAllValid(UnitTranslations(doc), Collect(PluralGroups(doc.root), IosGroupEntry));
  }
}
