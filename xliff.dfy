/**
 * The parsed XLIFF 1.2 document the converters read: an element tree of
 * `<file>`, `<group>` and `<trans-unit>` elements, and the ElementTree
 * queries the scripts run over it.
 */
module Xliff {
  import opened Wrappers
  import opened PyStr
  import opened Errors

  /** A `<context>` element: its `context-type` attribute and its text (`None` when it has none). */
  datatype Context = Context(contextType: Option<string>, text: Option<string>)

  /**
   * A `<trans-unit>`: its `resname` and `id` attributes, the text of its
   * first `<source>` and `<target>` children (`None` when the child is
   * missing or has no text) and the contexts of its first
   * `<context-group>` child (`None` when it has none).
   */
  datatype TransUnit = TransUnit(
    resname: Option<string>,
    id: Option<string>,
    source: Option<string>,
    target: Option<string>,
    contextGroup: Option<seq<Context>>)

  /** An element below the XLIFF root; elements other than these three only contribute their children. */
  datatype Node =
    | Unit(unit: TransUnit)
    | Group(restype: Option<string>, children: seq<Node>)
    | File(targetLanguage: Option<string>, children: seq<Node>)
    | Other(children: seq<Node>)

  /** A document: the children of its `<xliff>` root element. */
  datatype Document = Document(root: seq<Node>)

  const PluralRestype := "x-gettext-plurals"
  const PluralFormContextType := "x-plural-form"

  /** Python truthiness of an optional text: present and non-empty. */
  predicate HasText(t: Option<string>) {
    t.Some? && t.value != ""
  }

  /** `findall('.//ns:trans-unit')`: every trans-unit below the nodes, in document order. */
  function Units(ns: seq<Node>): seq<TransUnit>
    decreases ns
  {
    if ns == [] then [] else UnitsOf(ns[0]) + Units(ns[1..])
  }

  function UnitsOf(n: Node): seq<TransUnit>
    decreases n
  {
    match n
    case Unit(u) => [u]
    case Group(_, cs) => Units(cs)
    case File(_, cs) => Units(cs)
    case Other(cs) => Units(cs)
  }

  /**
   * `group.findall('ns:trans-unit')`: the trans-units among the direct
   * children, all of them and in document order (`DirectUnitsAppend`).
   */
  function DirectUnits(ns: seq<Node>): (us: seq<TransUnit>)
    ensures |us| <= |ns|
    ensures forall u :: u in us ==> Unit(u) in ns
    ensures forall i :: 0 <= i < |ns| && ns[i].Unit? ==> ns[i].unit in us
  {
    if ns == [] then []
    else
      var rest := DirectUnits(ns[1..]);
      assert forall i :: 1 <= i < |ns| ==> ns[i] == ns[1..][i - 1];
      match ns[0]
      case Unit(u) => [u] + rest
      case _ => rest
  }

  /**
   * The units of two runs of children are those of the first run followed
   * by those of the second; with the one-child case of the definition this
   * fixes the result as the unit children in order.
   */
  lemma {:induction false} DirectUnitsAppend(a: seq<Node>, b: seq<Node>)
    ensures DirectUnits(a + b) == DirectUnits(a) + DirectUnits(b)
    decreases |a|
  {
    if a != [] {
      assert (a + b)[1..] == a[1..] + b;
      DirectUnitsAppend(a[1..], b);
    } else {
      assert a + b == b;
    }
  }

  /**
   * `findall('.//ns:group[@restype="x-gettext-plurals"]')`, each group given
   * by its direct trans-units: a group comes before the groups nested in it.
   */
  function PluralGroups(ns: seq<Node>): seq<seq<TransUnit>>
    decreases ns
  {
    if ns == [] then [] else PluralGroupsOf(ns[0]) + PluralGroups(ns[1..])
  }

  function PluralGroupsOf(n: Node): seq<seq<TransUnit>>
    decreases n
  {
    match n
    case Unit(_) => []
    case Group(rt, cs) =>
      (if rt == Some(PluralRestype) then [DirectUnits(cs)] else []) + PluralGroups(cs)
    case File(_, cs) => PluralGroups(cs)
    case Other(cs) => PluralGroups(cs)
  }

  /** `root.find('ns:file')`: the first `<file>` child of the root. */
  function FirstFile(ns: seq<Node>): (r: Option<Node>)
    ensures r.Some? ==> r.value.File? && r.value in ns
    ensures r.Some? ==> exists i :: 0 <= i < |ns| && ns[i] == r.value && forall j :: 0 <= j < i ==> !ns[j].File?
    ensures r.None? <==> forall i :: 0 <= i < |ns| ==> !ns[i].File?
  {
    if ns == [] then None
    else if ns[0].File? then Some(ns[0])
    else
      var r := FirstFile(ns[1..]);
      assert forall i :: 1 <= i < |ns| ==> ns[i] == ns[1..][i - 1];
      r
  }

  /** `context_group.find('ns:context[@context-type="x-plural-form"]')`. */
  function PluralFormContext(cs: seq<Context>): Option<Context> {
    if cs == [] then None
    else if cs[0].contextType == Some(PluralFormContextType) then Some(cs[0])
    else PluralFormContext(cs[1..])
  }

  /**
   * `text.split(':')[-1].strip().lower()`: the plural form named by a context
   * such as `"Plural form: One "` is `"one"`.
   */
  function FormKey(text: string): string {
    Lower(Strip(LastField(text, ':')))
  }

  /**
   * The `(form, text)` pair one unit of a plural group contributes: none
   * unless it has a context group with a plural-form context that has text,
   * and a target with text.
   */
  function UnitForm(u: TransUnit): (r: seq<(string, string)>)
    ensures |r| <= 1
  {
    if u.contextGroup.None? then []
    else
      var pf := PluralFormContext(u.contextGroup.value);
      if HasText(u.target) && pf.Some? && pf.value.text.Some? then
        [(FormKey(pf.value.text.value), u.target.value)]
      else []
  }

  /**
   * The unit's target has text and its plural-form context has none: reading
   * the form name then dereferences `None`.
   */
  predicate FormTextMissing(u: TransUnit) {
    && u.contextGroup.Some?
    && HasText(u.target)
    && var pf := PluralFormContext(u.contextGroup.value);
       pf.Some? && pf.value.text.None?
  }
}
