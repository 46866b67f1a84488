/** The merge engine (`Merger` in merger.py) on already-parsed catalogs: projecting
    elements to `Plugin` triples, computing the changed triples, and applying each
    change as "remove the old element, append the new one". */
module Merger {
  import opened Wrappers
  import opened Seqs
  import opened Catalog

  /** Why `Merger.merge` aborts. `FileDoesNotExist` is the exception the method
      raises for a missing destination; `AppendNone` is the `TypeError` that
      `append(None)` raises when no input element matches a changed triple. Either
      way the destination file is not written. */
  datatype MergeError = FileDoesNotExist | AppendNone(plugin: Plugin)

  // ---------------------------------------------------------------------------
  // Locating an element (`Merger.plugin_element`)

  /** The test `plugin_element` applies to one element: the name matches and SOME
      `experimental` child carries the requested flag. */
  predicate Matches(e: PluginElem, name: string, x: bool)
  {
    e.name == name && HasFlag(e.children, x)
  }

  /** A match is an element with the name and an `experimental` child whose
      text reads as the flag; an element without such a child never matches. */
  lemma MatchesMeaning(e: PluginElem, name: string, x: bool)
    ensures Matches(e, name, x) <==> (e.name == name && exists i :: FlagAt(e.children, x, i))
    ensures Matches(e, name, x) ==> HasExperimentalChild(e)
  {
    if Matches(e, name, x) {
      var i :| FlagAt(e.children, x, i);
      assert e.children[i].tag == ExperimentalTag;
    }
  }

  /** Element `i` is the first element of `cat` that `Matches`. */
  predicate IsFirstMatch(cat: Catalog, name: string, x: bool, i: int)
  {
    0 <= i < |cat| && Matches(cat[i], name, x) && forall j :: 0 <= j < i ==> !Matches(cat[j], name, x)
  }

  /** The position of the element `plugin_element` returns. */
  function FirstMatch(cat: Catalog, name: string, x: bool): (r: Option<nat>)
    ensures r.Some? ==> IsFirstMatch(cat, name, x, r.value)
    ensures r.None? <==> forall j :: 0 <= j < |cat| ==> !Matches(cat[j], name, x)
    decreases |cat|
  {
    if |cat| == 0 then None
    else if Matches(cat[0], name, x) then Some(0)
    else match FirstMatch(cat[1..], name, x)
      case None => None
      case Some(k) => Some(k + 1)
  }

  /** `Merger.plugin_element`: the first element with the given name having some
      `experimental` child whose flag is `x`; `None` when there is none. */
  function PluginElement(cat: Catalog, name: string, x: bool): (r: Option<PluginElem>)
    ensures r.Some? <==> exists j :: 0 <= j < |cat| && Matches(cat[j], name, x)
    ensures r.Some? ==> exists i :: IsFirstMatch(cat, name, x, i) && r.value == cat[i]
    ensures r.Some? ==> r.value.name == name && HasExperimentalChild(r.value)
  {
    match FirstMatch(cat, name, x)
    case None => None
    case Some(i) => Some(cat[i])
  }

  /** `if element:` in `merge` tests an ElementTree element's truth value, which is
      "has at least one child". A returned element always has its `experimental`
      child, so the test is the same as "an element was found". */
  lemma FoundElementIsTruthy(cat: Catalog, name: string, x: bool)
    ensures PluginElement(cat, name, x).Some? ==> |PluginElement(cat, name, x).value.children| > 0
  {
  }

  // ---------------------------------------------------------------------------
  // The changed triples (`Merger.diff_plugins`)

  /** `Merger.diff_plugins`: the input triples that are not (name, experimental,
      version)-equal to any output triple, in input order and with their
      multiplicity. */
  function DiffPlugins(input: seq<Plugin>, output: seq<Plugin>): (r: seq<Plugin>)
    ensures IsSubsequence(r, input) && |r| <= |input|
    ensures forall p :: multiset(r)[p] == if p in output then 0 else multiset(input)[p]
    ensures forall p :: p in r <==> p in input && p !in output
    ensures r == [] <==> forall p :: p in input ==> p in output
  {
    var r := Filter(input, p => p !in output);
    assert forall p :: multiset(r)[p] == if p in output then 0 else multiset(input)[p] by {
      forall p {
        FilterCount(input, p => p !in output, p);
      }
    }
    assert r == [] <==> forall p :: p in input ==> p in output by {
      if r != [] {
        assert r[0] in r;
      }
    }
    r
  }

  // ---------------------------------------------------------------------------
  // Applying the changes (`Merger.merge`)

  /** The catalog without its element at `i`. */
  function RemoveAt(cat: Catalog, i: nat): (r: Catalog)
    requires i < |cat|
    ensures |r| == |cat| - 1
  {
    cat[..i] + cat[i + 1..]
  }

  /** Removing element `i` shifts the later elements down by one and takes
      exactly one occurrence of that element out of the catalog. */
  lemma RemoveAtMeaning(cat: Catalog, i: nat)
    requires i < |cat|
    ensures forall j :: 0 <= j < |cat| - 1 ==> RemoveAt(cat, i)[j] == if j < i then cat[j] else cat[j + 1]
    ensures multiset(RemoveAt(cat, i)) == multiset(cat) - multiset{cat[i]}
  {
    var r := RemoveAt(cat, i);
    var a, b := cat[..i], cat[i + 1..];
    assert r == a + b;
    forall j | 0 <= j < |cat| - 1
      ensures r[j] == if j < i then cat[j] else cat[j + 1]
    {
      if j < i {
        assert r[j] == a[j];
      } else {
        assert r[j] == b[j - i];
      }
    }
    assert cat == a + [cat[i]] + b;
    assert multiset(cat) == multiset(a) + multiset{cat[i]} + multiset(b);
    assert multiset(r) == multiset(a) + multiset(b);
  }

  /** The first half of one iteration of the loop in `merge`: the first element
      matching the name and flag is taken out; nothing changes when none matches. */
  function RemoveFirstMatch(cat: Catalog, name: string, x: bool): (r: Catalog)
    ensures forall i :: IsFirstMatch(cat, name, x, i) ==> r == cat[..i] + cat[i + 1..]
    ensures (forall j :: 0 <= j < |cat| ==> !Matches(cat[j], name, x)) ==> r == cat
  {
    match FirstMatch(cat, name, x)
    case Some(i) =>
      assert forall k :: IsFirstMatch(cat, name, x, k) ==> k == i;
      RemoveAt(cat, i)
    case None => cat
  }

  /** One iteration of the loop in `merge`: the first output element matching the
      triple's name and flag is removed, then the first input element matching it
      is appended at the end. */
  function MergeStep(output: Catalog, input: Catalog, p: Plugin): (r: Result<Catalog, MergeError>)
    ensures r.Success? <==> exists k :: 0 <= k < |input| && Matches(input[k], p.name, p.experimental)
    ensures r.Failure? ==> r.error == AppendNone(p)
    ensures r.Success? ==> (|r.value| > 0
      && exists k :: IsFirstMatch(input, p.name, p.experimental, k) && r.value[|r.value| - 1] == input[k])
    ensures r.Success? ==> forall i :: IsFirstMatch(output, p.name, p.experimental, i) ==>
      r.value == output[..i] + output[i + 1..] + [r.value[|r.value| - 1]]
    ensures r.Success? && (forall j :: 0 <= j < |output| ==> !Matches(output[j], p.name, p.experimental)) ==>
      r.value == output + [r.value[|r.value| - 1]]
  {
    var kept := RemoveFirstMatch(output, p.name, p.experimental);
    match PluginElement(input, p.name, p.experimental)
    case None => Failure(AppendNone(p))
    case Some(e) => Success(kept + [e])
  }

  /** A changed triple keeps the catalog's length when an element matched it, and
      grows it by one otherwise. */
  lemma MergeStepLength(output: Catalog, input: Catalog, p: Plugin)
    ensures MergeStep(output, input, p).Success? && (exists j :: 0 <= j < |output| && Matches(output[j], p.name, p.experimental))
      ==> |MergeStep(output, input, p).value| == |output|
    ensures MergeStep(output, input, p).Success? && (forall j :: 0 <= j < |output| ==> !Matches(output[j], p.name, p.experimental))
      ==> |MergeStep(output, input, p).value| == |output| + 1
  {
  }

  /** Every element after the step comes from the output or from the input. */
  lemma MergeStepSources(output: Catalog, input: Catalog, p: Plugin)
    ensures MergeStep(output, input, p).Success? ==>
      forall e :: e in MergeStep(output, input, p).value ==> e in output || e in input
  {
  }

  /** Every output element the triple does not match survives the step, in the
      same relative order. */
  lemma MergeStepKeepsUnmatched(output: Catalog, input: Catalog, p: Plugin, keep: PluginElem -> bool)
    requires forall e :: keep(e) ==> !Matches(e, p.name, p.experimental)
    ensures MergeStep(output, input, p).Success? ==> Filter(MergeStep(output, input, p).value, keep) == Filter(output, keep)
  {
    if MergeStep(output, input, p).Failure? {
      return;
    }
    var r := MergeStep(output, input, p).value;
    var last := r[|r| - 1];
    var k :| IsFirstMatch(input, p.name, p.experimental, k) && last == input[k];
    assert r == r[..|r| - 1] + [last];
    FilterAppendRejected(r[..|r| - 1], last, keep);
    var i := FirstMatch(output, p.name, p.experimental);
    if i.Some? {
      assert r[..|r| - 1] == output[..i.value] + output[i.value + 1..];
      FilterRemoveRejected(output, i.value, keep);
    } else {
      assert r[..|r| - 1] == output;
    }
  }

  /** The loop of `merge` as a fold over the changed triples; the first
      `append(None)` aborts the whole merge. */
  function MergeAll(output: Catalog, input: Catalog, diff: seq<Plugin>): (r: Result<Catalog, MergeError>)
    ensures r.Success? ==> |output| <= |r.value| <= |output| + |diff|
    ensures r.Success? ==> forall e :: e in r.value ==> e in output || e in input
    ensures r.Failure? ==> (r.error.AppendNone? && r.error.plugin in diff
      && forall k :: 0 <= k < |input| ==> !Matches(input[k], r.error.plugin.name, r.error.plugin.experimental))
    decreases |diff|
  {
    if |diff| == 0 then Success(output)
    else
      match MergeStep(output, input, diff[0])
      case Failure(err) => Failure(err)
      case Success(next) =>
        MergeStepLength(output, input, diff[0]);
        MergeStepSources(output, input, diff[0]);
        var r := MergeAll(next, input, diff[1..]);
        assert r.Failure? ==> r.error.plugin in diff by {
          if r.Failure? {
            assert r.error.plugin in diff[1..];
          }
        }
        r
  }

  /** `Merger.merge` on parsed catalogs. `destinationExists` is the result of the
      file-existence test that guards it. */
  function Merge(destinationExists: bool, input: Catalog, output: Catalog): (r: Result<Catalog, MergeError>)
    ensures !destinationExists ==> r == Failure(FileDoesNotExist)
    ensures destinationExists && DiffPlugins(Plugins(input), Plugins(output)) == [] ==> r == Success(output)
    ensures r.Success? ==> |output| <= |r.value| <= |output| + |input|
    ensures r.Success? ==> forall e :: e in r.value ==> e in output || e in input
    ensures r.Failure? && destinationExists ==> (r.error.AppendNone?
      && r.error.plugin in Plugins(input) && r.error.plugin !in Plugins(output)
      && forall k :: 0 <= k < |input| ==> !Matches(input[k], r.error.plugin.name, r.error.plugin.experimental))
  {
    if !destinationExists then Failure(FileDoesNotExist)
    else
      MergeAll(output, input, DiffPlugins(Plugins(input), Plugins(output)))
  }

  // ---------------------------------------------------------------------------
  // Properties of a whole merge

  /** The element is matched by none of the changed triples. */
  predicate UntouchedBy(e: PluginElem, diff: seq<Plugin>)
  {
    forall t :: t in diff ==> !Matches(e, t.name, t.experimental)
  }

  function NotMatchedBy(diff: seq<Plugin>): PluginElem -> bool
  {
    e => UntouchedBy(e, diff)
  }

  lemma {:induction false} MergeAllKeepsUntouched(output: Catalog, input: Catalog, todo: seq<Plugin>, diff: seq<Plugin>)
    requires forall t :: t in todo ==> t in diff
    ensures MergeAll(output, input, todo).Success? ==>
      Filter(MergeAll(output, input, todo).value, NotMatchedBy(diff)) == Filter(output, NotMatchedBy(diff))
    decreases |todo|
  {
    if |todo| > 0 && MergeAll(output, input, todo).Success? {
      var next := MergeStep(output, input, todo[0]).value;
      MergeStepKeepsUnmatched(output, input, todo[0], NotMatchedBy(diff));
      MergeAllKeepsUntouched(next, input, todo[1..], diff);
    }
  }

  /** Output elements that no changed triple matches come through a merge unchanged
      and in the same relative order; only matched elements are removed. */
  lemma MergeKeepsUntouched(input: Catalog, output: Catalog)
    ensures var diff := DiffPlugins(Plugins(input), Plugins(output));
      Merge(true, input, output).Success? ==>
        Filter(Merge(true, input, output).value, NotMatchedBy(diff)) == Filter(output, NotMatchedBy(diff))
  {
    var diff := DiffPlugins(Plugins(input), Plugins(output));
    MergeAllKeepsUntouched(output, input, diff, diff);
  }

  /** An element whose `experimental` children agree is never matched by the
      triple of the same name with the opposite flag: updating the stable entry
      of a plugin leaves its experimental entry alone, and vice versa. */
  lemma OppositeFlagNotMatched(e: PluginElem, p: Plugin)
    requires Consistent(e)
    requires p.name == e.name && p.experimental != Experimental(e)
    ensures !Matches(e, p.name, p.experimental)
    ensures UntouchedBy(e, [p])
  {
  }

  /** Merging one element into the empty catalog yields exactly that element. */
  lemma MergeIntoEmpty(e: PluginElem)
    requires HasExperimentalChild(e)
    ensures Merge(true, [e], []) == Success([e])
  {
    var p := PluginOf(e);
    assert Plugins([e]) == [p];
    assert DiffPlugins([p], []) == [p];
    OwnFlag(e);
    assert Matches(e, p.name, p.experimental);
    assert FirstMatch([e], p.name, p.experimental) == Some(0);
    assert MergeStep([], [e], p) == Success([e]) by {
      assert [] + [e] == [e];
    }
    assert [p][1..] == [];
    assert Plugins([]) == [];
    assert MergeAll([], [e], [p]) == MergeAll([e], [e], []);
  }

  // ---------------------------------------------------------------------------
  // Idempotence

  /** Two triples share the (name, experimental) identity `plugin_element` looks up. */
  predicate SameIdentity(p: Plugin, q: Plugin)
  {
    p.name == q.name && p.experimental == q.experimental
  }

  /** No two triples share an identity. */
  predicate UniqueIdentities(ps: seq<Plugin>)
  {
    forall i, j :: 0 <= i < |ps| && 0 <= j < |ps| && SameIdentity(ps[i], ps[j]) ==> i == j
  }

  lemma UniqueIdentity(ps: seq<Plugin>, p: Plugin, q: Plugin)
    requires UniqueIdentities(ps) && p in ps && q in ps && SameIdentity(p, q)
    ensures p == q
  {
    var i :| 0 <= i < |ps| && ps[i] == p;
    var j :| 0 <= j < |ps| && ps[j] == q;
    assert i == j;
  }

  /** For an element whose `experimental` children agree, a match means its
      triple has the looked-up identity. */
  lemma MatchedIdentity(e: PluginElem, t: Plugin)
    requires Consistent(e) && Matches(e, t.name, t.experimental)
    ensures SameIdentity(PluginOf(e), t)
  {
  }

  /** With unique input identities, the input element found for an input triple
      carries exactly that triple. */
  lemma FoundCarries(input: Catalog, t: Plugin, k: int)
    requires forall e :: e in input ==> HasExperimentalChild(e) && Consistent(e)
    requires UniqueIdentities(Plugins(input))
    requires t in Plugins(input)
    requires IsFirstMatch(input, t.name, t.experimental, k)
    ensures PluginOf(input[k]) == t
  {
    var ins := Plugins(input);
    assert input[k] in input;
    MatchedIdentity(input[k], t);
    assert ins[k] == PluginOf(input[k]);
    UniqueIdentity(ins, ins[k], t);
  }

  /** The step for an input triple finds an input element to append. */
  lemma StepSucceeds(cur: Catalog, input: Catalog, t: Plugin)
    requires forall e :: e in input ==> HasExperimentalChild(e)
    requires t in Plugins(input)
    ensures MergeStep(cur, input, t).Success?
  {
    var ins := Plugins(input);
    var j :| 0 <= j < |ins| && ins[j] == t;
    assert input[j] in input;
    OwnFlag(input[j]);
    assert Matches(input[j], t.name, t.experimental);
  }

  /** The element a step appends carries exactly the triple being installed. */
  lemma StepInstalls(cur: Catalog, input: Catalog, t: Plugin)
    requires forall e :: e in input ==> HasExperimentalChild(e) && Consistent(e)
    requires UniqueIdentities(Plugins(input))
    requires t in Plugins(input)
    ensures MergeStep(cur, input, t).Success?
    ensures var r := MergeStep(cur, input, t).value; |r| > 0 && PluginOf(r[|r| - 1]) == t
    ensures t in Plugins(MergeStep(cur, input, t).value)
  {
    StepSucceeds(cur, input, t);
    var k := FirstMatch(input, t.name, t.experimental).value;
    FoundCarries(input, t, k);
    var next := MergeStep(cur, input, t).value;
    assert next[|next| - 1] == input[k];
    InPlugins(next, input[k]);
  }

  lemma InPlugins(cat: Catalog, e: PluginElem)
    requires e in cat
    ensures PluginOf(e) in Plugins(cat)
  {
  }

  lemma RemoveAtKeeps(cat: Catalog, i: nat, m: nat)
    requires i < |cat| && m < |cat| && m != i
    ensures cat[m] in RemoveAt(cat, i)
  {
  }

  /** A step removes no element whose triple is an input triple other than the
      one it installs. */
  lemma StepKeeps(cur: Catalog, input: Catalog, t: Plugin, p: Plugin)
    requires forall e :: e in cur ==> Consistent(e)
    requires UniqueIdentities(Plugins(input))
    requires t in Plugins(input) && p in Plugins(input) && p in Plugins(cur) && p != t
    ensures MergeStep(cur, input, t).Success? ==> p in Plugins(MergeStep(cur, input, t).value)
  {
    if MergeStep(cur, input, t).Failure? {
      return;
    }
    var next := MergeStep(cur, input, t).value;
    var last := next[|next| - 1];
    var m :| 0 <= m < |cur| && Plugins(cur)[m] == p;
    var i := FirstMatch(cur, t.name, t.experimental);
    if i.None? {
      assert next == cur + [last];
    } else {
      assert next == RemoveAt(cur, i.value) + [last];
      if m == i.value {
        assert cur[m] in cur;
        MatchedIdentity(cur[m], t);
        UniqueIdentity(Plugins(input), p, t);
      }
      RemoveAtKeeps(cur, i.value, m);
    }
    assert cur[m] in next;
    InPlugins(next, cur[m]);
  }

  /** Under unique input identities and agreeing `experimental` children, one step
      succeeds, installs its triple, and loses no input triple already present. */
  lemma MergeStepCovers(cur: Catalog, input: Catalog, t: Plugin)
    requires forall e :: e in cur ==> Consistent(e)
    requires forall e :: e in input ==> HasExperimentalChild(e) && Consistent(e)
    requires UniqueIdentities(Plugins(input))
    requires t in Plugins(input)
    ensures MergeStep(cur, input, t).Success?
    ensures forall e :: e in MergeStep(cur, input, t).value ==> Consistent(e)
    ensures forall p :: p in Plugins(input) && (p in Plugins(cur) || p == t) ==> p in Plugins(MergeStep(cur, input, t).value)
  {
    StepInstalls(cur, input, t);
    MergeStepSources(cur, input, t);
    forall p | p in Plugins(input) && p in Plugins(cur) && p != t
      ensures p in Plugins(MergeStep(cur, input, t).value)
    {
      StepKeeps(cur, input, t, p);
    }
  }
  lemma {:induction false} MergeAllCovers(cur: Catalog, input: Catalog, todo: seq<Plugin>)
    requires forall e :: e in cur ==> Consistent(e)
    requires forall e :: e in input ==> HasExperimentalChild(e) && Consistent(e)
    requires UniqueIdentities(Plugins(input))
    requires forall t :: t in todo ==> t in Plugins(input)
    ensures MergeAll(cur, input, todo).Success?
    ensures forall p :: p in Plugins(input) && (p in Plugins(cur) || p in todo) ==>
      p in Plugins(MergeAll(cur, input, todo).value)
    decreases |todo|
  {
    if |todo| > 0 {
      var t := todo[0];
      MergeStepCovers(cur, input, t);
      var next := MergeStep(cur, input, t).value;
      MergeAllCovers(next, input, todo[1..]);
      forall p | p in todo
        ensures p == t || p in todo[1..]
      {
        var i :| 0 <= i < |todo| && todo[i] == p;
        if i > 0 {
          assert todo[1..][i - 1] == p;
        }
      }
    }
  }

  /** A second merge of the same input finds nothing to change and leaves the
      catalog as the first merge left it, provided the input's identities are
      unique and every element's `experimental` children agree (each input
      element having at least one). */
  lemma MergeIdempotent(input: Catalog, output: Catalog)
    requires forall e :: e in input ==> HasExperimentalChild(e) && Consistent(e)
    requires forall e :: e in output ==> Consistent(e)
    requires UniqueIdentities(Plugins(input))
    ensures Merge(true, input, output).Success?
    ensures DiffPlugins(Plugins(input), Plugins(Merge(true, input, output).value)) == []
    ensures Merge(true, input, Merge(true, input, output).value) == Merge(true, input, output)
  {
    var diff := DiffPlugins(Plugins(input), Plugins(output));
    MergeAllCovers(output, input, diff);
    var r := Merge(true, input, output).value;
    assert forall p :: p in Plugins(input) ==> p in Plugins(r);
  }
}
