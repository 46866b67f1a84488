/** The parsed form of a plugin-repository catalog: the ordered `<plugin>` elements
    under the `<plugins>` root, each with its `name`/`version` attributes and its
    child elements in document order. */
module Catalog {
  import opened Wrappers

  /** A child element of a `<plugin>`: its tag and its text. An element without
      text (ElementTree's `None`) is represented by the empty string. */
  datatype Child = Child(tag: string, text: string)

  /** One `<plugin name=… version=…>` element. */
  datatype PluginElem = PluginElem(name: string, version: string, children: seq<Child>)

  /** The `Plugin` named tuple: what the merge engine compares. */
  datatype Plugin = Plugin(name: string, experimental: bool, version: string)

  type Catalog = seq<PluginElem>

  const ExperimentalTag: string := "experimental"

  /** How an `experimental` child's text is read: only the exact text `True` is true. */
  predicate FlagOf(text: string) { text == "True" }

  /** The index of the first child carrying `tag`, if any. */
  function FindFirst(children: seq<Child>, tag: string): (r: Option<nat>)
    ensures r.Some? ==> r.value < |children| && children[r.value].tag == tag
    ensures r.Some? ==> forall j :: 0 <= j < r.value ==> children[j].tag != tag
    ensures r.None? <==> forall j :: 0 <= j < |children| ==> children[j].tag != tag
    decreases |children|
  {
    if |children| == 0 then None
    else if children[0].tag == tag then Some(0)
    else match FindFirst(children[1..], tag)
      case None => None
      case Some(k) => Some(k + 1)
  }

  /** The element's experimental flag as `Merger.plugins` reads it: the flag of its
      first `experimental` child, false when it has none. */
  function Experimental(e: PluginElem): bool
  {
    match FindFirst(e.children, ExperimentalTag)
    case None => false
    case Some(i) => FlagOf(e.children[i].text)
  }

  /** The `Plugin` triple of one element. */
  function PluginOf(e: PluginElem): Plugin
  {
    Plugin(e.name, Experimental(e), e.version)
  }

  /** `Merger.plugins`: one triple per element, in document order. */
  function Plugins(cat: Catalog): (r: seq<Plugin>)
    ensures |r| == |cat|
    ensures forall i :: 0 <= i < |cat| ==> r[i] == Plugin(cat[i].name, Experimental(cat[i]), cat[i].version)
    decreases |cat|
  {
    if |cat| == 0 then [] else [PluginOf(cat[0])] + Plugins(cat[1..])
  }

  /** Child `i` is the first child carrying `tag`. */
  predicate IsFirstWithTag(children: seq<Child>, tag: string, i: int)
  {
    0 <= i < |children| && children[i].tag == tag && forall j :: 0 <= j < i ==> children[j].tag != tag
  }

  /** The flag the triple carries is true exactly when the first `experimental`
      child says `True`, and false when there is no `experimental` child. */
  lemma ExperimentalMeaning(e: PluginElem)
    ensures Experimental(e) <==>
      exists i :: IsFirstWithTag(e.children, ExperimentalTag, i) && e.children[i].text == "True"
    ensures (forall j :: 0 <= j < |e.children| ==> e.children[j].tag != ExperimentalTag) ==> !Experimental(e)
  {
  }

  // ---------------------------------------------------------------------------
  // Flags as `Merger.plugin_element` reads them

  /** Child `i` is an `experimental` child carrying flag `x`. */
  predicate FlagAt(children: seq<Child>, x: bool, i: int)
  {
    0 <= i < |children| && children[i].tag == ExperimentalTag && FlagOf(children[i].text) == x
  }

  /** Some `experimental` child of the list carries the flag `x`. */
  function HasFlag(children: seq<Child>, x: bool): (b: bool)
    ensures b <==> exists i :: FlagAt(children, x, i)
    decreases |children|
  {
    if |children| == 0 then false
    else if FlagAt(children, x, 0) then true
    else
      FlagAtTail(children, x);
      HasFlag(children[1..], x)
  }

  lemma FlagAtTail(children: seq<Child>, x: bool)
    requires |children| > 0
    ensures (exists i :: FlagAt(children[1..], x, i)) <==> (exists i :: 1 <= i && FlagAt(children, x, i))
  {
    if exists i :: 1 <= i && FlagAt(children, x, i) {
      var i :| 1 <= i && FlagAt(children, x, i);
      assert FlagAt(children[1..], x, i - 1);
    }
    if exists i :: FlagAt(children[1..], x, i) {
      var i :| FlagAt(children[1..], x, i);
      assert FlagAt(children, x, i + 1);
    }
  }

  /** The element has at least one `experimental` child. */
  predicate HasExperimentalChild(e: PluginElem)
  {
    exists i :: 0 <= i < |e.children| && e.children[i].tag == ExperimentalTag
  }

  /** All `experimental` children of the element carry the same flag, so reading
      the first one and reading any one agree. */
  predicate Consistent(e: PluginElem)
  {
    forall i, j :: 0 <= i < |e.children| && 0 <= j < |e.children|
      && e.children[i].tag == ExperimentalTag && e.children[j].tag == ExperimentalTag
      ==> FlagOf(e.children[i].text) == FlagOf(e.children[j].text)
  }

  /** For an element whose `experimental` children agree, "some child carries flag
      `x`" is "it has such a child and its triple's flag is `x`". */
  lemma ConsistentFlag(e: PluginElem, x: bool)
    requires Consistent(e)
    ensures HasFlag(e.children, x) <==> HasExperimentalChild(e) && Experimental(e) == x
  {
    if HasExperimentalChild(e) {
      var k :| 0 <= k < |e.children| && e.children[k].tag == ExperimentalTag;
      var first := FindFirst(e.children, ExperimentalTag).value;
      assert FlagAt(e.children, Experimental(e), first);
      if HasFlag(e.children, x) {
        var j :| FlagAt(e.children, x, j);
        assert FlagOf(e.children[j].text) == FlagOf(e.children[first].text);
      }
    }
  }

  /** The first `experimental` child always witnesses the triple's own flag. */
  lemma OwnFlag(e: PluginElem)
    requires HasExperimentalChild(e)
    ensures HasFlag(e.children, Experimental(e))
  {
    var k :| 0 <= k < |e.children| && e.children[k].tag == ExperimentalTag;
    var first := FindFirst(e.children, ExperimentalTag).value;
    assert FlagAt(e.children, Experimental(e), first);
  }
}
