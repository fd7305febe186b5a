/**
 * `parse_xliff` of the Android and the desktop converters (the two are the
 * same code): plural groups are read first, each stored under the resname
 * of its first unit that has one; then every trans-unit whose resname is not
 * yet a key and whose target has text is stored as a plain string.
 */
module SharedParse {
  import opened Wrappers
  import opened Errors
  import opened PyDict
  import opened Ordering
  import opened Xliff

  /** A translation: a plain text or the forms of a plural group. */
  datatype Translation = Simple(text: string) | Plural(forms: Dict<string, string>)

  /** The translations of one document, keyed by resname (`None` when a unit has no resname). */
  type Translations = Dict<Option<string>, Translation>

  /** A unit of a plural group on which the loop crashes. */
  predicate Malformed(u: TransUnit) {
    u.contextGroup.None? || FormTextMissing(u)
  }

  /** No unit of the group is malformed. */
  predicate NoneMalformed(us: seq<TransUnit>) {
    forall i :: 0 <= i < |us| ==> !Malformed(us[i])
  }

  lemma NoneMalformedStep(us: seq<TransUnit>, j: nat)
    requires j < |us|
    ensures NoneMalformed(us[..j + 1]) <==> NoneMalformed(us[..j]) && !Malformed(us[j])
  {
    assert us[..j + 1] == us[..j] + [us[j]];
  }

  /** Some plural group of the document holds a malformed unit. */
  predicate HasMalformedUnit(groups: seq<seq<TransUnit>>) {
    exists i, j | 0 <= i < |groups| && 0 <= j < |groups[i]| :: Malformed(groups[i][j])
  }

  lemma HasMalformedStep(groups: seq<seq<TransUnit>>, i: nat)
    requires i < |groups|
    ensures HasMalformedUnit(groups[..i + 1]) <==> HasMalformedUnit(groups[..i]) || !NoneMalformed(groups[i])
  {
    var pre, ext := groups[..i], groups[..i + 1];
    assert forall a :: 0 <= a < i ==> ext[a] == pre[a];
    if !NoneMalformed(groups[i]) {
      var b :| 0 <= b < |groups[i]| && Malformed(groups[i][b]);
      assert ext[i][b] == groups[i][b];
    }
    if HasMalformedUnit(pre) {
      var a, b :| 0 <= a < |pre| && 0 <= b < |pre[a]| && Malformed(pre[a][b]);
      assert Malformed(ext[a][b]);
    }
    if HasMalformedUnit(ext) {
      var a, b :| 0 <= a < |ext| && 0 <= b < |ext[a]| && Malformed(ext[a][b]);
      if a < i { assert Malformed(pre[a][b]); } else { assert Malformed(groups[i][b]); }
    }
  }

  lemma HasMalformedPrefix(groups: seq<seq<TransUnit>>, i: nat)
    requires i <= |groups|
    ensures HasMalformedUnit(groups[..i]) ==> HasMalformedUnit(groups)
  {
    if HasMalformedUnit(groups[..i]) {
      var a, b :| 0 <= a < i && 0 <= b < |groups[..i][a]| && Malformed(groups[..i][a][b]);
      assert groups[..i][a] == groups[a];
    }
  }

  /** The resname of the first unit whose `resname` attribute is present. */
  function GroupResname(us: seq<TransUnit>): (r: Option<string>)
    ensures r.None? <==> forall i :: 0 <= i < |us| ==> us[i].resname.None?
    ensures r.Some? ==> exists i :: 0 <= i < |us| && us[i].resname == r
                                    && forall j :: 0 <= j < i ==> us[j].resname.None?
  {
    if us == [] then None
    else
      var p := GroupResname(us[..|us| - 1]);
      assert forall i :: 0 <= i < |us| - 1 ==> us[..|us| - 1][i] == us[i];
      if p.Some? then p else us[|us| - 1].resname
  }

  lemma GroupResnameStep(us: seq<TransUnit>, j: nat)
    requires j < |us|
    ensures GroupResname(us[..j + 1]) == if GroupResname(us[..j]).Some? then GroupResname(us[..j]) else us[j].resname
  {
    assert us[..j + 1][..j] == us[..j];
  }

  /** The forms a group collects: a later unit naming the same form overwrites an earlier one. */
  function GroupForms(us: seq<TransUnit>): Dict<string, string> {
    PutAll([], Collect(us, UnitForm))
  }

  /** What a plural group stores: its forms under its resname, if both are non-empty. */
  function GroupEntry(us: seq<TransUnit>): seq<(Option<string>, Translation)> {
    var k := GroupResname(us);
    var forms := GroupForms(us);
    if k.Some? && k.value != "" && forms != [] then [(k, Plural(forms))] else []
  }

  /** What a trans-unit offers the second loop: its target, if that has text. */
  function SimpleEntry(u: TransUnit): seq<(Option<string>, Translation)> {
    if HasText(u.target) then [(u.resname, Simple(u.target.value))] else []
  }

  /** The translations after the plural-group loop. */
  function PluralTranslations(doc: Document): Translations {
    PutAll([], Collect(PluralGroups(doc.root), GroupEntry))
  }

  /** The result of `parse_xliff`. */
  function Parse(doc: Document): Result<Translations, Error> {
    if HasMalformedUnit(PluralGroups(doc.root)) then Failure(MalformedPluralUnit)
    else Success(PutAllNew(PluralTranslations(doc), Collect(Units(doc.root), SimpleEntry)))
  }

  /**
   * The body of the inner loop for one unit: look up its context group and
   * plural-form context and record the form it names, or crash.
   */
  method ReadPluralUnit(pluralForms: Dict<string, string>, unit: TransUnit) returns (r: Option<Dict<string, string>>)
    ensures r.None? <==> Malformed(unit)
    ensures r.Some? ==> r.value == if UnitForm(unit) == [] then pluralForms
                                   else Put(pluralForms, UnitForm(unit)[0].0, UnitForm(unit)[0].1)
  {
    if unit.contextGroup.None? {
      return None;
    }
    var pluralForm := PluralFormContext(unit.contextGroup.value);
    if HasText(unit.target) && pluralForm.Some? {
      if pluralForm.value.text.None? {
        return None;
      }
      var form := FormKey(pluralForm.value.text.value);
      assert UnitForm(unit) == [(form, unit.target.value)];
      return Some(Put(pluralForms, form, unit.target.value));
    }
    assert UnitForm(unit) == [];
    return Some(pluralForms);
  }

  /**
   * The inner loop over one plural group's units: its resname and forms, or
   * `None` when it reaches a malformed unit.
   */
  method ReadPluralGroup(group: seq<TransUnit>) returns (r: Option<(Option<string>, Dict<string, string>)>)
    ensures r.None? <==> !NoneMalformed(group)
    ensures r.Some? ==> r.value == (GroupResname(group), GroupForms(group))
  {
    var pluralForms: Dict<string, string> := [];
    var resname: Option<string> := None;
    var j := 0;
    while j < |group|
      invariant 0 <= j <= |group|
      invariant pluralForms == PutAll([], Collect(group[..j], UnitForm))
      invariant resname == GroupResname(group[..j])
      invariant NoneMalformed(group[..j])
    {
      var unit := group[j];
      GroupResnameStep(group, j);
      CollectSnoc(group, j, UnitForm);
      PutAllStep([], Collect(group[..j], UnitForm), UnitForm(unit));
      NoneMalformedStep(group, j);
      if resname.None? {
        resname := unit.resname;
      }
      var next := ReadPluralUnit(pluralForms, unit);
      if next.None? {
        return None;
      }
      pluralForms := next.value;
      j := j + 1;
    }
    assert group[..j] == group;
    return Some((resname, pluralForms));
  }

  /** One more unit stores its text when its resname is new and it has a target with text. */
  lemma SimpleStep(t0: Translations, units: seq<TransUnit>, k: nat)
    requires k < |units|
    ensures var t := PutAllNew(t0, Collect(units[..k], SimpleEntry));
            var u := units[k];
            PutAllNew(t0, Collect(units[..k + 1], SimpleEntry))
            == if !HasKey(t, u.resname) && HasText(u.target) then Put(t, u.resname, Simple(u.target.value)) else t
  {
    CollectSnoc(units, k, SimpleEntry);
    PutAllNewStep(t0, Collect(units[..k], SimpleEntry), SimpleEntry(units[k]));
  }

  /** The second loop: each unit with a new resname and a target with text is stored. */
  method AddSimpleTranslations(t0: Translations, units: seq<TransUnit>) returns (t: Translations)
    ensures t == PutAllNew(t0, Collect(units, SimpleEntry))
  {
    t := t0;
    var k := 0;
    while k < |units|
      invariant 0 <= k <= |units|
      invariant t == PutAllNew(t0, Collect(units[..k], SimpleEntry))
    {
      var unit := units[k];
      SimpleStep(t0, units, k);
      if !HasKey(t, unit.resname) {
        if HasText(unit.target) {
          t := Put(t, unit.resname, Simple(unit.target.value));
        }
      }
      k := k + 1;
    }
    assert units[..k] == units;
  }

  /** `parse_xliff`: the plural-group loop, then the trans-unit loop. */
  method ParseXliff(doc: Document) returns (r: Result<Translations, Error>)
    ensures r == Parse(doc)
  {
    var groups := PluralGroups(doc.root);
    var translations: Translations := [];
    var i := 0;
    while i < |groups|
      invariant 0 <= i <= |groups|
      invariant translations == PutAll([], Collect(groups[..i], GroupEntry))
      invariant !HasMalformedUnit(groups[..i])
    {
      CollectSnoc(groups, i, GroupEntry);
      PutAllStep([], Collect(groups[..i], GroupEntry), GroupEntry(groups[i]));
      HasMalformedStep(groups, i);
      var read := ReadPluralGroup(groups[i]);
      if read.None? {
        HasMalformedPrefix(groups, i + 1);
        return Failure(MalformedPluralUnit);
      }
      var (resname, pluralForms) := read.value;
      if resname.Some? && resname.value != "" && pluralForms != [] {
        assert GroupEntry(groups[i]) == [(resname, Plural(pluralForms))];
        translations := Put(translations, resname, Plural(pluralForms));
      } else {
        assert GroupEntry(groups[i]) == [];
      }
      i := i + 1;
    }
    assert groups[..i] == groups;
    translations := AddSimpleTranslations(translations, Units(doc.root));
    return Success(translations);
  }

  /** Group `g` is recorded under `k` by the plural-group loop. */
  predicate StoredUnder(g: seq<TransUnit>, k: Option<string>) {
    GroupResname(g) == k && k.Some? && k.value != "" && GroupForms(g) != []
  }

  /**
   * A group's form `f` holds the target of the last unit whose plural-form
   * context names `f`: later units overwrite earlier ones.
   */
  lemma GroupFormsLookup(us: seq<TransUnit>, f: string, v: string)
    ensures Get(GroupForms(us), f) == Some(v) <==>
            exists i :: 0 <= i < |us| && UnitForm(us[i]) == [(f, v)]
                        && forall j :: i < j < |us| ==> !Gives(UnitForm, us[j], f)
  {
    PutAllGet([], Collect(us, UnitForm), f);
    LastWithCollect(us, UnitForm, f, v);
  }

  lemma GroupEntryMeaning(g: seq<TransUnit>, k: Option<string>, t: Translation)
    ensures GroupEntry(g) == [(k, t)] <==> StoredUnder(g, k) && t == Plural(GroupForms(g))
    ensures Gives(GroupEntry, g, k) <==> StoredUnder(g, k)
  {
  }

  lemma PluralLookup(doc: Document, k: Option<string>, t: Translation)
    ensures Get(PluralTranslations(doc), k) == Some(t) <==>
            var gs := PluralGroups(doc.root);
            exists i :: 0 <= i < |gs| && StoredUnder(gs[i], k) && t == Plural(GroupForms(gs[i]))
                        && forall j :: i < j < |gs| ==> !StoredUnder(gs[j], k)
    ensures HasKey(PluralTranslations(doc), k) <==>
            var gs := PluralGroups(doc.root);
            exists i :: 0 <= i < |gs| && StoredUnder(gs[i], k)
  {
    var gs := PluralGroups(doc.root);
    PutAllGet([], Collect(gs, GroupEntry), k);
    LastWithCollect(gs, GroupEntry, k, t);
    LastWithCollectNone(gs, GroupEntry, k);
    forall i | 0 <= i < |gs| ensures (GroupEntry(gs[i]) == [(k, t)] <==> StoredUnder(gs[i], k) && t == Plural(GroupForms(gs[i])))
                                && (Gives(GroupEntry, gs[i], k) <==> StoredUnder(gs[i], k)) {
      GroupEntryMeaning(gs[i], k, t);
    }
  }

  /**
   * A key named by some stored plural group maps to the forms of the last
   * group stored under it.
   */
  lemma ParsePluralValue(doc: Document, k: Option<string>, f: Dict<string, string>)
    requires Parse(doc).Success?
    ensures Get(Parse(doc).value, k) == Some(Plural(f)) <==>
            var gs := PluralGroups(doc.root);
            exists i :: 0 <= i < |gs| && StoredUnder(gs[i], k) && f == GroupForms(gs[i])
                        && forall j :: i < j < |gs| ==> !StoredUnder(gs[j], k)
  {
    var units := Units(doc.root);
    PutAllNewGet(PluralTranslations(doc), Collect(units, SimpleEntry), k);
    PluralLookup(doc, k, Plural(f));
    if !HasKey(PluralTranslations(doc), k) {
      SimpleOnly(units, k);
    }
  }

  /** The second loop only ever stores plain strings. */
  lemma SimpleOnly(units: seq<TransUnit>, k: Option<string>)
    ensures FirstWith(Collect(units, SimpleEntry), k).Some? ==> FirstWith(Collect(units, SimpleEntry), k).value.Simple?
  {
    var r := FirstWith(Collect(units, SimpleEntry), k);
    if r.Some? {
      FirstWithCollect(units, SimpleEntry, k, r.value);
    }
  }

  /** The trans-unit loop keeps, for each resname, the first target that has text. */
  lemma SimpleLookup(us: seq<TransUnit>, k: Option<string>, v: string)
    ensures FirstWith(Collect(us, SimpleEntry), k) == Some(Simple(v)) <==>
            exists i :: 0 <= i < |us| && us[i].resname == k && us[i].target == Some(v) && v != ""
                        && forall j :: 0 <= j < i ==> !(us[j].resname == k && HasText(us[j].target))
  {
    FirstWithCollect(us, SimpleEntry, k, Simple(v));
    assert forall i :: 0 <= i < |us| ==> (Gives(SimpleEntry, us[i], k) <==> us[i].resname == k && HasText(us[i].target));
    assert forall i :: 0 <= i < |us| ==>
      (SimpleEntry(us[i]) == [(k, Simple(v))] <==> us[i].resname == k && us[i].target == Some(v) && v != "");
  }

  /**
   * Any other key maps to the target of the first trans-unit of the whole
   * document with that resname and a target with text.
   */
  lemma ParseSimpleValue(doc: Document, k: Option<string>, v: string)
    requires Parse(doc).Success?
    ensures Get(Parse(doc).value, k) == Some(Simple(v)) <==>
            var gs := PluralGroups(doc.root);
            var us := Units(doc.root);
            && (forall i :: 0 <= i < |gs| ==> !StoredUnder(gs[i], k))
            && exists i :: 0 <= i < |us| && us[i].resname == k && us[i].target == Some(v) && v != ""
                           && forall j :: 0 <= j < i ==> !(us[j].resname == k && HasText(us[j].target))
  {
    var units := Units(doc.root);
    PutAllNewGet(PluralTranslations(doc), Collect(units, SimpleEntry), k);
    PluralLookup(doc, k, Simple(v));
    SimpleLookup(units, k, v);
    if HasKey(PluralTranslations(doc), k) {
      PluralOnly(doc, k);
    }
  }

  /** The plural-group loop only ever stores plural groups. */
  lemma PluralOnly(doc: Document, k: Option<string>)
    ensures Get(PluralTranslations(doc), k).Some? ==> Get(PluralTranslations(doc), k).value.Plural?
  {
    var r := Get(PluralTranslations(doc), k);
    if r.Some? {
      PluralLookup(doc, k, r.value);
    }
  }

  /** The parse fails exactly when some unit of a plural group is malformed. */
  lemma ParseFailure(doc: Document)
    ensures Parse(doc).Failure? <==>
            var gs := PluralGroups(doc.root);
            exists i, j :: 0 <= i < |gs| && 0 <= j < |gs[i]|
                           && (gs[i][j].contextGroup.None? || FormTextMissing(gs[i][j]))
  {
    var gs := PluralGroups(doc.root);
    if HasMalformedUnit(gs) {
      var i, j :| 0 <= i < |gs| && 0 <= j < |gs[i]| && Malformed(gs[i][j]);
      assert gs[i][j].contextGroup.None? || FormTextMissing(gs[i][j]);
    }
  }

  /** The parsed translations never repeat a key. */
  lemma ParseValid(doc: Document)
    requires Parse(doc).Success?
    ensures Valid(Parse(doc).value)
  {
    PutAllValid([], Collect(PluralGroups(doc.root), GroupEntry));
    PutAllValid(PluralTranslations(doc), Collect(Units(doc.root), SimpleEntry));
  }

  /** `f"{resname}"`: a missing resname prints as `None`. */
  function KeyText(k: Option<string>): string {
    if k.Some? then k.value else "None"
  }

  function ItemKey(item: (Option<string>, Translation)): string {
    KeyText(item.0)
  }

  /**
   * `sorted(translations.items())`: ascending by resname; with two or more
   * items, a missing resname cannot be compared with the others.
   */
  function SortedItems(t: Translations): (r: Result<Translations, Error>)
    ensures r.Failure? <==> |t| >= 2 && exists i :: 0 <= i < |t| && t[i].0.None?
    ensures r.Failure? ==> r.error == UnorderableKeys
    ensures r.Success? ==> multiset(r.value) == multiset(t) && SortedBy(r.value, ItemKey)
  {
    if |t| >= 2 && exists i | 0 <= i < |t| :: t[i].0.None? then Failure(UnorderableKeys)
    else Success(SortBy(t, ItemKey))
  }
}
