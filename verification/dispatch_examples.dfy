/** The dispatcher test cases: five catalog files tagged 3.4, 3.10, 3.16, 3.22
    and 3.28, and plugins declaring 3.10–3.22 and 3.10 with no maximum. */
module DispatchExamples {
  import opened Wrappers
  import opened Seqs
  import opened Text
  import opened Catalog
  import opened Dispatcher

  const Prefix: string := "plugins_tmp-"

  /** The base name of the catalog file tagged `3.<minor>`. */
  function FileName(minor: string): string
  {
    Prefix + ("3." + minor + ".xml")
  }

  function Candidates(): seq<string>
  {
    [FileName("4"), FileName("10"), FileName("16"), FileName("22"), FileName("28")]
  }

  lemma TwoDigits(v: int)
    requires 10 <= v <= 99
    ensures |IntToString(v)| == 2 && AllDigits(IntToString(v))
  {
  }

  /** The only place a token `3.<two digits>` can occur in `3.<tag>.xml` is
      the start, and then its digits are the tag. */
  lemma TokenInTaggedName(tag: string, digits: string, i: int)
    requires |tag| == 2 && AllDigits(tag) && |digits| == 2 && AllDigits(digits)
    requires OccursAt("3." + tag + ".xml", "3." + digits, i)
    ensures i == 0 && digits == tag
  {
    var u := "3." + tag + ".xml";
    var tok := "3." + digits;
    assert u == ['3', '.', tag[0], tag[1], '.', 'x', 'm', 'l'];
    assert tok == ['3', '.', digits[0], digits[1]];
    OccursAtChars(u, tok, i);
    assert IsDigit(u[i + 3]);
    assert u[i + 2] == digits[0] && u[i + 3] == digits[1];
  }

  /** A token `3.<two digits>` occurs in a name tagged with a two-digit minor
      exactly when the digits are the tag. */
  lemma TwoDigitTag(tag: string, v: int)
    requires |tag| == 2 && AllDigits(tag) && 10 <= v <= 99
    ensures Contains(FileName(tag), Token("3", v)) <==> IntToString(v) == tag
  {
    TwoDigits(v);
    var u := "3." + tag + ".xml";
    var tok := Token("3", v);
    assert tok == "3." + IntToString(v);
    assert tok[0] == '3' && '3' !in Prefix;
    SkipPrefix(Prefix, u, tok);
    assert FileName(tag) == Prefix + u;
    if Contains(u, tok) {
      var i :| OccursAt(u, tok, i);
      TokenInTaggedName(tag, IntToString(v), i);
    }
    if IntToString(v) == tag {
      assert u[0..|tok|] == tok;
      assert OccursAt(u, tok, 0);
    }
  }

  /** A two-digit token never occurs in the name tagged `3.4`. */
  lemma OneDigitTag(v: int)
    requires 10 <= v <= 99
    ensures !Contains(FileName("4"), Token("3", v))
  {
    TwoDigits(v);
    var u := "3.4.xml";
    assert FileName("4") == Prefix + u;
    var tok := Token("3", v);
    assert tok[0] == '3' && '3' !in Prefix;
    SkipPrefix(Prefix, u, tok);
    assert tok == ['3', '.', IntToString(v)[0], IntToString(v)[1]];
    assert u == ['3', '.', '4', '.', 'x', 'm', 'l'];
    assert IsDigit(tok[3]) && !IsDigit(u[3]);
    forall i | 0 <= i && i + |tok| <= |u|
      ensures !OccursAt(u, tok, i)
    {
      assert u[i..i + |tok|][0] == u[i] && u[i..i + |tok|][3] == u[i + 3];
    }
  }

  /** For a range of two-digit minors holding an even one, the file tagged with
      the two-digit minor `t` is selected exactly when `t` is even and in range. */
  lemma TagSelection(tag: string, t: int, lo: int, hi: int)
    requires 10 <= lo < hi <= 99 && 10 <= t <= 99 && IntToString(t) == tag
    ensures Selected(Range("3", lo, hi), FileName(tag)) <==> lo <= t <= hi && IsEven(t)
  {
    TwoDigits(t);
    ParseRendered(t);
    forall v | lo <= v <= hi
      ensures Contains(FileName(tag), Token("3", v)) <==> v == t
    {
      TwoDigitTag(tag, v);
      ParseRendered(v);
    }
    assert IsEven(lo) || IsEven(lo + 1);
  }

  /** The file tagged `3.4` is never selected by a range of two-digit minors. */
  lemma OneDigitFileRejected(lo: int, hi: int)
    requires 10 <= lo < hi <= 99
    ensures !Selected(Range("3", lo, hi), FileName("4"))
  {
    forall v | lo <= v <= hi
      ensures !Contains(FileName("4"), Token("3", v))
    {
      OneDigitTag(v);
    }
    assert IsEven(lo) || IsEven(lo + 1);
  }

  lemma FilterFive<T(!new)>(a: T, b: T, c: T, d: T, e: T, keep: T -> bool)
    ensures Filter([a, b, c, d, e], keep) == Keep(a, keep) + (Keep(b, keep) + (Keep(c, keep) + (Keep(d, keep) + Keep(e, keep))))
  {
    var s4: seq<T> := [e];
    var s3 := [d] + s4;
    var s2 := [c] + s3;
    var s1 := [b] + s2;
    assert [a, b, c, d, e] == [a] + s1;
    FilterCons(a, s1, keep);
    FilterCons(b, s2, keep);
    FilterCons(c, s3, keep);
    FilterCons(d, s4, keep);
    FilterCons(e, [], keep);
    assert s4 == [e] + [];
    assert Keep(e, keep) + [] == Keep(e, keep);
  }

  /** What the selection keeps of the file tagged with the two-digit minor `t`. */
  lemma KeepTag(tag: string, t: int, lo: int, hi: int)
    requires 10 <= lo < hi <= 99 && 10 <= t <= 99 && IntToString(t) == tag
    ensures Keep(FileName(tag), SelectedBy(Range("3", lo, hi))) ==
      if lo <= t <= hi && IsEven(t) then [FileName(tag)] else []
  {
    TagSelection(tag, t, lo, hi);
  }

  /** Filtering the candidates drops the file tagged 3.4 and decides each
      two-digit file on its own. */
  lemma CandidatesFilter(lo: int, hi: int)
    requires 10 <= lo < hi <= 99
    ensures Filter(Candidates(), SelectedBy(Range("3", lo, hi))) == Keep(FileName("10"), SelectedBy(Range("3", lo, hi)))
      + (Keep(FileName("16"), SelectedBy(Range("3", lo, hi))) + (Keep(FileName("22"), SelectedBy(Range("3", lo, hi)))
      + Keep(FileName("28"), SelectedBy(Range("3", lo, hi)))))
  {
    var keep := SelectedBy(Range("3", lo, hi));
    OneDigitFileRejected(lo, hi);
    assert Keep(FileName("4"), keep) == [];
    FilterFive(FileName("4"), FileName("10"), FileName("16"), FileName("22"), FileName("28"), keep);
  }

  lemma Rendered()
    ensures IntToString(10) == "10" && IntToString(16) == "16" && IntToString(22) == "22"
    ensures IntToString(28) == "28" && IntToString(99) == "99"
  {
  }

  /** The candidate files a plugin with bounds `3.<lo>`–`3.<hi>` is dispatched to:
      never the one tagged 3.4, and each two-digit one exactly when its minor is
      in the bounds (all four are even). */
  lemma CandidatesSelection(lo: int, hi: int, minVersion: string, maxVersion: string)
    requires 10 <= lo < hi <= 99
    requires VersionRange(minVersion, maxVersion) == Success(Range("3", lo, hi))
    ensures SelectTargets(minVersion, maxVersion, Candidates()) == Success(
      (if lo <= 10 then [FileName("10")] else []) + ((if lo <= 16 <= hi then [FileName("16")] else [])
      + ((if lo <= 22 <= hi then [FileName("22")] else []) + (if lo <= 28 <= hi then [FileName("28")] else []))))
  {
    CandidatesFilter(lo, hi);
    assert IsEven(10) && IsEven(16) && IsEven(22) && IsEven(28);
    Rendered();
    KeepTag("10", 10, lo, hi);
    KeepTag("16", 16, lo, hi);
    KeepTag("22", 22, lo, hi);
    KeepTag("28", 28, lo, hi);
  }

  /** A stable release of the plugin declaring QGIS 3.10 to 3.22. */
  function StableInput(): Catalog
  {
    [PluginElem("PgMetadata", "0.6.0",
      [Child(ExperimentalTag, "False"), Child(MinimumTag, "3.10"), Child(MaximumTag, "3.22")])]
  }

  /** A development release declaring QGIS 3.10 and no maximum. */
  function DevInput(): Catalog
  {
    [PluginElem("PgMetadata", "0.7.0", [Child(ExperimentalTag, "True"), Child(MinimumTag, "3.10")])]
  }

  /** The bounds are read from the children; an absent maximum falls back to 3.99. */
  lemma FixtureVersions()
    ensures VersionsForPlugin(StableInput()) == ("3.10", "3.22")
    ensures VersionsForPlugin(DevInput()) == ("3.10", "3.99")
  {
  }

  /** The stable bounds parse to the minors 10..22 of major 3. */
  lemma StableRange()
    ensures VersionRange("3.10", "3.22") == Success(Range("3", 10, 22))
  {
    RenderedRange("3", 10, "3", 22);
    assert "3" + "." + IntToString(10) == "3.10";
    assert "3" + "." + IntToString(22) == "3.22";
  }

  /** The development bounds, with the default maximum, parse to the minors 10..99. */
  lemma DevRange()
    ensures VersionRange("3.10", "3.99") == Success(Range("3", 10, 99))
  {
    RenderedRange("3", 10, "3", 99);
    assert "3" + "." + IntToString(10) == "3.10";
    assert "3" + "." + IntToString(99) == "3.99";
  }

  /** The stable bounds keep the first three of four tagged files. */
  lemma StablePick(a: string, b: string, c: string, d: string)
    ensures (if 10 <= 10 then [a] else []) + ((if 10 <= 16 <= 22 then [b] else [])
      + ((if 10 <= 22 <= 22 then [c] else []) + (if 10 <= 28 <= 22 then [d] else []))) == [a, b, c]
  {
  }

  /** The development bounds keep all four tagged files. */
  lemma DevPick(a: string, b: string, c: string, d: string)
    ensures (if 10 <= 10 then [a] else []) + ((if 10 <= 16 <= 99 then [b] else [])
      + ((if 10 <= 22 <= 99 then [c] else []) + (if 10 <= 28 <= 99 then [d] else []))) == [a, b, c, d]
  {
  }

  /** Bounds with minors 10 and 22 select the files tagged 3.10, 3.16 and 3.22. */
  lemma StableSelection(minVersion: string, maxVersion: string)
    requires VersionRange(minVersion, maxVersion) == Success(Range("3", 10, 22))
    ensures SelectTargets(minVersion, maxVersion, Candidates()) == Success([FileName("10"), FileName("16"), FileName("22")])
  {
    CandidatesSelection(10, 22, minVersion, maxVersion);
    StablePick(FileName("10"), FileName("16"), FileName("22"), FileName("28"));
  }

  /** Bounds with minors 10 and 99 also select the file tagged 3.28. */
  lemma DevSelection(minVersion: string, maxVersion: string)
    requires VersionRange(minVersion, maxVersion) == Success(Range("3", 10, 99))
    ensures SelectTargets(minVersion, maxVersion, Candidates())
      == Success([FileName("10"), FileName("16"), FileName("22"), FileName("28")])
  {
    CandidatesSelection(10, 99, minVersion, maxVersion);
    DevPick(FileName("10"), FileName("16"), FileName("22"), FileName("28"));
  }

  /** Bounds 3.10–3.22 select the files tagged 3.10, 3.16 and 3.22. */
  lemma StableTargets()
    ensures SelectTargets("3.10", "3.22", Candidates()) == Success([FileName("10"), FileName("16"), FileName("22")])
  {
    StableRange();
    StableSelection("3.10", "3.22");
  }

  /** Bounds 3.10–3.99 also select the file tagged 3.28. */
  lemma DevTargets()
    ensures SelectTargets("3.10", "3.99", Candidates())
      == Success([FileName("10"), FileName("16"), FileName("22"), FileName("28")])
  {
    DevRange();
    DevSelection("3.10", "3.99");
  }

  /** The stable release goes to the files tagged 3.10, 3.16 and 3.22. */
  lemma StableDispatch()
    ensures XmlFilesForPlugin(StableInput(), Candidates()) == Success([FileName("10"), FileName("16"), FileName("22")])
  {
    FixtureVersions();
    StableTargets();
  }

  /** The development release also goes to the file tagged 3.28. */
  lemma DevDispatch()
    ensures XmlFilesForPlugin(DevInput(), Candidates())
      == Success([FileName("10"), FileName("16"), FileName("22"), FileName("28")])
  {
    FixtureVersions();
    DevTargets();
  }

  // ---------------------------------------------------------------------------
  // Edge cases of the parsing and of the substring search

  /** A one-digit minor's token is a prefix of a two-digit tag: bounds 3.2–3.2
      select the file tagged 3.22. */
  lemma ShortTokenSelectsLongerTag()
    ensures SelectTargets("3.2", "3.2", [FileName("22")]) == Success([FileName("22")])
  {
    RenderedRange("3", 2, "3", 2);
    assert "3" + "." + IntToString(2) == "3.2";
    var rg := Range("3", 2, 2);
    var name := FileName("22");
    assert Token("3", 2) == "3.2";
    assert name[12..15] == "3.2";
    assert OccursAt(name, Token("3", 2), 12);
    assert IsEven(2);
    assert Selected(rg, name);
    FilterCons(name, [], SelectedBy(rg));
    assert [name] + [] == [name];
  }

  /** A version without a minor aborts the dispatch, whatever the candidates. */
  lemma MissingMinorAborts(names: seq<string>)
    ensures SelectTargets("3", "3.22", names) == Failure(MissingMinor("3"))
  {
  }

  /** A minor `int()` rejects aborts the dispatch with that text. */
  lemma NonNumericMinorAborts(names: seq<string>)
    ensures SelectTargets("3.x", "3.22", names) == Failure(NotAnInteger("x"))
  {
  }

  /** `int("04")` is 4, and `int("10")` is 10. */
  lemma ParsedMinors()
    ensures ParseInt("04") == Some(4) && ParseInt("10") == Some(10)
  {
    ParseLeadingZeros("", "0", 4);
    assert "" + "0" + NatToString(4) == "04";
    Rendered();
    ParseRendered(10);
  }

  /** `int()` ignores leading zeros: the minimum 3.04 is the minor 4. */
  lemma LeadingZeroMinor()
    ensures VersionRange("3.04", "3.10") == Success(Range("3", 4, 10))
  {
    ParsedMinors();
    VersionRangeOfDotted("3", "04", "", "3", "10", "");
    assert "3" + "." + "04" + "" == "3.04";
    assert "3" + "." + "10" + "" == "3.10";
  }
}
