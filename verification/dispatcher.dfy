/** The version dispatcher (`Dispatcher` in dispatcher.py): reading the plugin's
    QGIS version bounds and choosing, among candidate catalog file names, those
    tagged with an even minor version inside the bounds. */
module Dispatcher {
  import opened Wrappers
  import opened Seqs
  import opened Text
  import opened Catalog

  const MinimumTag: string := "qgis_minimum_version"
  const MaximumTag: string := "qgis_maximum_version"
  const DefaultMinimum: string := "3.0"
  const DefaultMaximum: string := "3.99"

  // ---------------------------------------------------------------------------
  // Version bounds (`Dispatcher.versions_for_plugin`)

  /** Every child of every plugin element, in document order. */
  function AllChildren(cat: Catalog): (r: seq<Child>)
    ensures forall e, c :: e in cat && c in e.children ==> c in r
    decreases |cat|
  {
    if |cat| == 0 then [] else cat[0].children + AllChildren(cat[1..])
  }

  /** Child `i` carries `tag` and no later child does. */
  predicate IsLastWithTag(children: seq<Child>, tag: string, i: int)
  {
    0 <= i < |children| && children[i].tag == tag && forall j :: i < j < |children| ==> children[j].tag != tag
  }

  /** Scanning the children in order and overwriting `current` with the text of
      each child carrying `tag`: the text of the last such child, or `current`
      when there is none. */
  function LastText(children: seq<Child>, tag: string, current: string): (r: string)
    ensures (forall j :: 0 <= j < |children| ==> children[j].tag != tag) ==> r == current
    ensures (exists j :: 0 <= j < |children| && children[j].tag == tag) ==>
      exists i :: IsLastWithTag(children, tag, i) && r == children[i].text
    decreases |children|
  {
    if |children| == 0 then current
    else
      var next := if children[0].tag == tag then children[0].text else current;
      LastTextTail(children, tag);
      LastText(children[1..], tag, next)
  }

  lemma LastTextTail(children: seq<Child>, tag: string)
    requires |children| > 0
    ensures forall i :: IsLastWithTag(children[1..], tag, i) ==> IsLastWithTag(children, tag, i + 1)
    ensures (forall j :: 0 <= j < |children[1..]| ==> children[1..][j].tag != tag) && children[0].tag == tag ==>
      IsLastWithTag(children, tag, 0)
    ensures (exists j :: 0 <= j < |children| && children[j].tag == tag) && children[0].tag != tag ==>
      exists j :: 0 <= j < |children[1..]| && children[1..][j].tag == tag
  {
  }

  /** `Dispatcher.versions_for_plugin`: the text of the last `qgis_minimum_version`
      and the last `qgis_maximum_version` child across all plugin elements, with
      the defaults `3.0` and `3.99` when there is no such child. */
  function VersionsForPlugin(cat: Catalog): (r: (string, string))
    ensures (forall j :: 0 <= j < |AllChildren(cat)| ==> AllChildren(cat)[j].tag != MinimumTag) ==>
      r.0 == DefaultMinimum
    ensures (exists j :: 0 <= j < |AllChildren(cat)| && AllChildren(cat)[j].tag == MinimumTag) ==>
      exists i :: IsLastWithTag(AllChildren(cat), MinimumTag, i) && r.0 == AllChildren(cat)[i].text
    ensures (forall j :: 0 <= j < |AllChildren(cat)| ==> AllChildren(cat)[j].tag != MaximumTag) ==>
      r.1 == DefaultMaximum
    ensures (exists j :: 0 <= j < |AllChildren(cat)| && AllChildren(cat)[j].tag == MaximumTag) ==>
      exists i :: IsLastWithTag(AllChildren(cat), MaximumTag, i) && r.1 == AllChildren(cat)[i].text
  {
    var cs := AllChildren(cat);
    (LastText(cs, MinimumTag, DefaultMinimum), LastText(cs, MaximumTag, DefaultMaximum))
  }

  // ---------------------------------------------------------------------------
  // The minor-version range

  /** Why `xml_files_for_plugin` raises: a version without a second component
      (`IndexError`) or a second component `int()` rejects (`ValueError`). */
  datatype DispatchError = MissingMinor(version: string) | NotAnInteger(text: string)

  /** The major of the minimum version and the two minor bounds. */
  datatype Range = Range(major: string, lo: int, hi: int)

  /** Components [0] and [1] of the minimum version and component [1] of the
      maximum version, evaluated in the order the source evaluates them. */
  function VersionRange(minVersion: string, maxVersion: string): (r: Result<Range, DispatchError>)
    ensures '.' !in minVersion ==> r == Failure(MissingMinor(minVersion))
    ensures r.Success? ==> '.' in minVersion && '.' in maxVersion
    ensures r.Success? ==> '.' !in r.value.major
  {
    var minParts := Split(minVersion, '.');
    var maxParts := Split(maxVersion, '.');
    if |minParts| < 2 then Failure(MissingMinor(minVersion))
    else match ParseInt(minParts[1])
      case None => Failure(NotAnInteger(minParts[1]))
      case Some(lo) =>
        if |maxParts| < 2 then Failure(MissingMinor(maxVersion))
        else match ParseInt(maxParts[1])
          case None => Failure(NotAnInteger(maxParts[1]))
          case Some(hi) => Success(Range(minParts[0], lo, hi))
  }

  /** A version `<major>.<minor>[.<more>…]`: the major and the minor are free of
      dots, and whatever follows the minor starts a further component. */
  predicate Dotted(version: string, major: string, minor: string, rest: string)
  {
    '.' !in major && '.' !in minor && (rest == [] || rest[0] == '.')
    && version == major + "." + minor + rest
  }

  /** For versions written `<major>.<minor>[.<more>…]`, the outcome depends on
      the two minor texts alone: the first one `int()` rejects is reported, and
      otherwise the range is the minimum's major with the two parsed minors.
      Further components and the maximum's major play no part. */
  lemma VersionRangeOfDotted(major: string, a: string, minRest: string, maxMajor: string, b: string, maxRest: string)
    requires '.' !in major && '.' !in a && (minRest == [] || minRest[0] == '.')
    requires '.' !in maxMajor && '.' !in b && (maxRest == [] || maxRest[0] == '.')
    ensures var r := VersionRange(major + "." + a + minRest, maxMajor + "." + b + maxRest);
      && (ParseInt(a).None? ==> r == Failure(NotAnInteger(a)))
      && (ParseInt(a).Some? && ParseInt(b).None? ==> r == Failure(NotAnInteger(b)))
      && (ParseInt(a).Some? && ParseInt(b).Some? ==> r == Success(Range(major, ParseInt(a).value, ParseInt(b).value)))
  {
    DottedSplit(major, a, minRest);
    DottedSplit(maxMajor, b, maxRest);
  }

  /** Minors written as `str(n)` parse back to `n`. */
  lemma RenderedRange(major: string, lo: int, maxMajor: string, hi: int)
    requires '.' !in major && '.' !in maxMajor
    ensures VersionRange(major + "." + IntToString(lo), maxMajor + "." + IntToString(hi)) == Success(Range(major, lo, hi))
  {
    RenderedHasNoDot(lo);
    RenderedHasNoDot(hi);
    ParseRendered(lo);
    ParseRendered(hi);
    VersionRangeOfDotted(major, IntToString(lo), "", maxMajor, IntToString(hi), "");
    assert major + "." + IntToString(lo) + "" == major + "." + IntToString(lo);
    assert maxMajor + "." + IntToString(hi) + "" == maxMajor + "." + IntToString(hi);
  }

  /** A maximum without a second component aborts once the minimum's minor has
      parsed, reporting the maximum. */
  lemma MaximumWithoutMinor(major: string, a: string, minRest: string, maxVersion: string)
    requires '.' !in major && '.' !in a && (minRest == [] || minRest[0] == '.')
    requires ParseInt(a).Some? && '.' !in maxVersion
    ensures VersionRange(major + "." + a + minRest, maxVersion) == Failure(MissingMinor(maxVersion))
  {
    DottedSplit(major, a, minRest);
  }

  /** A minimum minor `int()` rejects aborts before the maximum is looked at,
      whatever the maximum is. */
  lemma MinimumNotAnInteger(major: string, a: string, minRest: string, maxVersion: string)
    requires '.' !in major && '.' !in a && (minRest == [] || minRest[0] == '.')
    requires ParseInt(a).None?
    ensures VersionRange(major + "." + a + minRest, maxVersion) == Failure(NotAnInteger(a))
  {
    DottedSplit(major, a, minRest);
  }

  /** Every version with a dot has the shape `major.minor[.more]`. With it, the
      minimum-without-dot clause of `VersionRange`, `MinimumNotAnInteger`,
      `MaximumWithoutMinor` and `VersionRangeOfDotted` account for every pair of
      versions. */
  lemma DottedForm(version: string)
    requires '.' in version
    ensures |Split(version, '.')| >= 2
    ensures var parts := Split(version, '.');
      Dotted(version, parts[0], parts[1], if |parts| == 2 then [] else "." + Join(parts[2..], '.'))
  {
    var parts := Split(version, '.');
    JoinFirstTwo(parts, '.');
    if |parts| > 2 {
      var rest := "." + Join(parts[2..], '.');
      assert version == parts[0] + "." + (parts[1] + rest);
      assert parts[0] + "." + (parts[1] + rest) == parts[0] + "." + parts[1] + rest;
    }
  }

  /** `major.minor[.more]` splits into the major and the minor's text. */
  lemma DottedSplit(major: string, minor: string, rest: string)
    requires '.' !in major && '.' !in minor
    requires rest == [] || rest[0] == '.'
    ensures var parts := Split(major + "." + minor + rest, '.');
      |parts| >= 2 && parts[0] == major && parts[1] == minor
  {
    var tail := if rest == [] then [] else Split(rest[1..], '.');
    var parts := [major, minor] + tail;
    assert Join([minor] + tail, '.') == minor + rest by {
      if rest != [] {
        JoinCons(minor, tail, '.');
        assert rest == "." + rest[1..];
      }
    }
    JoinCons(major, [minor] + tail, '.');
    assert parts == [major] + ([minor] + tail);
    assert Join(parts, '.') == major + "." + minor + rest;
    forall i | 0 <= i < |parts|
      ensures '.' !in parts[i]
    {
      if i >= 2 {
        assert parts[i] == tail[i - 2];
      }
    }
    SplitJoin(parts, '.');
  }

  /** No rendered integer contains a dot. */
  lemma RenderedHasNoDot(n: int)
    ensures '.' !in IntToString(n)
  {
    if n < 0 {
      assert IntToString(n) == "-" + NatToString(-n);
    }
  }

  // ---------------------------------------------------------------------------
  // Tokens and the search

  /** `v % 2 == 0`; Python's floored and Dafny's Euclidean remainder agree on
      evenness, also for negative `v`. */
  predicate IsEven(v: int) { v % 2 == 0 }

  /** The even integers of `range(lo, hi + 1)`, ascending. */
  function EvenMinors(lo: int, hi: int): (r: seq<int>)
    ensures forall v :: v in r <==> lo <= v <= hi && IsEven(v)
    ensures forall i, j :: 0 <= i < j < |r| ==> r[i] < r[j]
    ensures forall i :: 0 <= i < |r| ==> lo <= r[i]
    decreases hi - lo
  {
    if lo > hi then []
    else
      var rest := EvenMinors(lo + 1, hi);
      if IsEven(lo) then [lo] + rest else rest
  }

  /** The literal text the regular expression `<major>\.<v>` matches. */
  function Token(major: string, v: int): string
  {
    major + "." + IntToString(v)
  }

  /** A token is the major, a dot, and a text that `int()` reads back as the minor. */
  lemma TokenMinor(major: string, v: int)
    ensures var tok := Token(major, v);
      |tok| > |major| + 1 && tok[..|major|] == major && tok[|major|] == '.'
      && ParseInt(tok[|major| + 1..]) == Some(v)
  {
    ParseRendered(v);
    assert Token(major, v)[|major| + 1..] == IntToString(v);
  }

  /** Distinct minors give distinct tokens. */
  lemma TokenInjective(major: string, v: int, w: int)
    requires Token(major, v) == Token(major, w)
    ensures v == w
  {
    var a, b := IntToString(v), IntToString(w);
    assert a == Token(major, v)[|major| + 1..];
    assert b == Token(major, w)[|major| + 1..];
    ParseRendered(v);
    ParseRendered(w);
  }

  function Tokens(major: string, minors: seq<int>): (r: seq<string>)
    ensures |r| == |minors|
    ensures forall i :: 0 <= i < |r| ==> r[i] == Token(major, minors[i])
    decreases |minors|
  {
    if |minors| == 0 then [] else [Token(major, minors[0])] + Tokens(major, minors[1..])
  }

  /** Some token occurs in `name`. */
  function AnyContains(tokens: seq<string>, name: string): (b: bool)
    ensures b <==> exists i :: 0 <= i < |tokens| && Contains(name, tokens[i])
    decreases |tokens|
  {
    if |tokens| == 0 then false
    else if Contains(name, tokens[0]) then true
    else
      var b := AnyContains(tokens[1..], name);
      assert forall i :: 1 <= i < |tokens| ==> tokens[i] == tokens[1..][i - 1];
      b
  }

  /** `re.search` of the `|`-joined alternation of the tokens in `name`: with no
      tokens the pattern is the empty regex, which matches every string. */
  function Search(tokens: seq<string>, name: string): (b: bool)
    ensures |tokens| == 0 ==> b
    ensures |tokens| > 0 ==> (b <==> exists i :: 0 <= i < |tokens| && Contains(name, tokens[i]))
  {
    |tokens| == 0 || AnyContains(tokens, name)
  }

  /** The selection the dispatcher makes, stated directly: when some even minor
      lies in `[lo, hi]`, a name is selected iff it contains `<major>.<v>` for
      such a `v`; when none does, every name is selected. */
  predicate Selected(rg: Range, name: string)
  {
    (forall v :: rg.lo <= v <= rg.hi ==> !IsEven(v))
    || exists v :: rg.lo <= v <= rg.hi && IsEven(v) && Contains(name, Token(rg.major, v))
  }

  function SelectedBy(rg: Range): string -> bool
  {
    name => Selected(rg, name)
  }

  function SearchBy(tokens: seq<string>): string -> bool
  {
    name => Search(tokens, name)
  }

  /** An empty list of even minors means no minor of the range is even. */
  lemma NoEvenMinor(lo: int, hi: int)
    requires |EvenMinors(lo, hi)| == 0
    ensures forall v :: lo <= v <= hi ==> !IsEven(v)
  {
    forall v | lo <= v <= hi
      ensures !IsEven(v)
    {
      assert v !in EvenMinors(lo, hi);
    }
  }

  /** A token the search finds belongs to an even minor of the range. */
  lemma FoundTokenMinor(rg: Range, name: string)
    requires AnyContains(Tokens(rg.major, EvenMinors(rg.lo, rg.hi)), name)
    ensures exists v :: rg.lo <= v <= rg.hi && IsEven(v) && Contains(name, Token(rg.major, v))
  {
    var minors := EvenMinors(rg.lo, rg.hi);
    var tokens := Tokens(rg.major, minors);
    var i :| 0 <= i < |tokens| && Contains(name, tokens[i]);
    assert minors[i] in minors;
  }

  /** The token of an even minor of the range is searched for. */
  lemma MinorTokenFound(rg: Range, name: string, v: int)
    requires rg.lo <= v <= rg.hi && IsEven(v) && Contains(name, Token(rg.major, v))
    ensures AnyContains(Tokens(rg.major, EvenMinors(rg.lo, rg.hi)), name)
  {
    var minors := EvenMinors(rg.lo, rg.hi);
    assert v in minors;
    var i :| 0 <= i < |minors| && minors[i] == v;
    assert Contains(name, Tokens(rg.major, minors)[i]);
  }

  /** The token search decides exactly the direct statement of the selection. */
  lemma SearchMeaning(rg: Range, name: string)
    ensures Search(Tokens(rg.major, EvenMinors(rg.lo, rg.hi)), name) <==> Selected(rg, name)
  {
    var minors := EvenMinors(rg.lo, rg.hi);
    var tokens := Tokens(rg.major, minors);
    if |minors| == 0 {
      NoEvenMinor(rg.lo, rg.hi);
    } else {
      assert minors[0] in minors;
      if AnyContains(tokens, name) {
        FoundTokenMinor(rg, name);
      }
      if exists v :: rg.lo <= v <= rg.hi && IsEven(v) && Contains(name, Token(rg.major, v)) {
        var v :| rg.lo <= v <= rg.hi && IsEven(v) && Contains(name, Token(rg.major, v));
        MinorTokenFound(rg, name, v);
      }
    }
  }

  lemma {:induction false} FilterCongruent(s: seq<string>, f: string -> bool, g: string -> bool)
    requires forall x :: f(x) == g(x)
    ensures Filter(s, f) == Filter(s, g)
    decreases |s|
  {
    if |s| > 0 {
      FilterCongruent(s[1..], f, g);
    }
  }

  // ---------------------------------------------------------------------------
  // The candidate files (`Dispatcher.xml_files_for_plugin`)

  /** The file-name filter of `xml_files_for_plugin` for given bounds: the
      candidates whose name the alternation of even-minor tokens finds, in their
      original order. */
  function SelectTargets(minVersion: string, maxVersion: string, names: seq<string>): (r: Result<seq<string>, DispatchError>)
    ensures VersionRange(minVersion, maxVersion).Failure? ==> r == Failure(VersionRange(minVersion, maxVersion).error)
    ensures r.Success? <==> VersionRange(minVersion, maxVersion).Success?
    ensures r.Success? ==> IsSubsequence(r.value, names)
    ensures r.Success? ==> r.value == Filter(names, SelectedBy(VersionRange(minVersion, maxVersion).value))
    ensures r.Success? ==> forall name :: name in r.value <==>
      name in names && Selected(VersionRange(minVersion, maxVersion).value, name)
  {
    match VersionRange(minVersion, maxVersion)
    case Failure(err) => Failure(err)
    case Success(rg) =>
      var tokens := Tokens(rg.major, EvenMinors(rg.lo, rg.hi));
      forall name
        ensures SearchBy(tokens)(name) == SelectedBy(rg)(name)
      {
        SearchMeaning(rg, name);
      }
      FilterCongruent(names, SearchBy(tokens), SelectedBy(rg));
      Success(Filter(names, SearchBy(tokens)))
  }

  /** `Dispatcher.xml_files_for_plugin`: the bounds come from the input catalog. */
  function XmlFilesForPlugin(input: Catalog, names: seq<string>): (r: Result<seq<string>, DispatchError>)
    ensures r.Success? ==> IsSubsequence(r.value, names)
    ensures r == SelectTargets(VersionsForPlugin(input).0, VersionsForPlugin(input).1, names)
  {
    var (minVersion, maxVersion) := VersionsForPlugin(input);
    SelectTargets(minVersion, maxVersion, names)
  }

  /** With no even minor in the range (an inverted range, or a single odd minor)
      the pattern is empty and every candidate is selected. */
  lemma NoEvenMinorSelectsAll(minVersion: string, maxVersion: string, names: seq<string>)
    requires VersionRange(minVersion, maxVersion).Success?
    requires var rg := VersionRange(minVersion, maxVersion).value;
      forall v :: rg.lo <= v <= rg.hi ==> !IsEven(v)
    ensures SelectTargets(minVersion, maxVersion, names) == Success(names)
  {
    var rg := VersionRange(minVersion, maxVersion).value;
    FilterAll(names, SelectedBy(rg));
  }

  /** An inverted range is one such case. */
  lemma InvertedRangeSelectsAll(minVersion: string, maxVersion: string, names: seq<string>)
    requires VersionRange(minVersion, maxVersion).Success?
    requires VersionRange(minVersion, maxVersion).value.hi < VersionRange(minVersion, maxVersion).value.lo
    ensures SelectTargets(minVersion, maxVersion, names) == Success(names)
  {
    NoEvenMinorSelectsAll(minVersion, maxVersion, names);
  }

  /** An odd minor never yields a token, even inside the range. */
  lemma OddMinorNoToken(rg: Range, v: int)
    requires !IsEven(v)
    ensures Token(rg.major, v) !in Tokens(rg.major, EvenMinors(rg.lo, rg.hi))
  {
    var minors := EvenMinors(rg.lo, rg.hi);
    if Token(rg.major, v) in Tokens(rg.major, minors) {
      var i :| 0 <= i < |minors| && Tokens(rg.major, minors)[i] == Token(rg.major, v);
      TokenInjective(rg.major, minors[i], v);
    }
  }
}
