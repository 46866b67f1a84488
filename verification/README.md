# qgis-plugin-repo in Dafny

A model of the two pure components of `qgis-plugin-repo`, a tool that maintains
QGIS plugin-repository catalogs (`plugins.xml`).

- **The merge engine** is `Merger` in `qgis_plugin_repo/merger.py`. A catalog is
  an ordered list of `<plugin name=… version=…>` elements. Each element has child
  elements, and each child has a tag and a text.
  - `plugins` projects each element to its `Plugin(name, experimental, version)`
    triple.
  - `diff_plugins` keeps the input triples that the output lacks.
  - `merge` handles each such triple in turn: it removes the output element with
    the same name and `experimental` flag, then appends the input's element at
    the end.
- **The version dispatcher** is `Dispatcher` in `qgis_plugin_repo/dispatcher.py`.
  - It reads the plugin's `qgis_minimum_version` and `qgis_maximum_version`
    (defaults `3.0` and `3.99`).
  - It turns the even minors between them into `<major>.<minor>` tokens.
  - It keeps the candidate catalog files whose name contains one of the tokens.

Catalogs are already-parsed sequences (`Catalog.PluginElem`, `Catalog.Child`).
Every operation is a pure function. Exceptions become `Failure` values of a
`Result`:
- `FileDoesNotExist` when the destination is missing.
- `AppendNone` for the `TypeError` that `append(None)` raises when no input
  element matches a changed triple.
- `MissingMinor` for the `IndexError` of a version without a second component.
- `NotAnInteger` for the `ValueError` of `int()`.

Modules:
- `Wrappers`: `Option`, `Result`.
- `Seqs`: order-preserving `Filter`, `IsSubsequence`.
- `Text`:
  - `str.split` and `join`;
  - `int()` and `str()` on integers;
  - substring search.
- `Catalog`: the data model and `plugins`.
- `Merger`: `plugin_element`, `diff_plugins`, `merge`, and the properties of a
  whole merge.
- `Dispatcher`: `versions_for_plugin`, `xml_files_for_plugin`.
- `MergeExamples`, `DispatchExamples`: the repository's test scenarios, proved
  for all inputs of their shape where possible.

Behaviours of the code worth knowing:
- **An update moves the entry to the end.** An updated entry is removed and its
  replacement is appended at the end of the catalog (`merger.py:149-156`).
- **An empty even range selects everything.** With no even minor between the
  bounds the pattern is the empty regex, which matches every candidate
  (`dispatcher.py:38-45`).
- **The bounds come from the last child.** `versions_for_plugin` reads the text
  of the LAST `qgis_minimum_version` / `qgis_maximum_version` child across ALL
  plugin elements (`dispatcher.py:55-61`).
- **Matching has no digit boundary.** Matching is bare substring containment, so
  the token `3.2` is found in `plugins_tmp-3.22.xml` (`dispatcher.py:44`).

Two readings of an element's `experimental` flag coexist in the code, and the
model keeps both:
- `plugins` reads the FIRST `experimental` child.
- `plugin_element` accepts an element if ANY `experimental` child carries the
  requested flag.

An element without an `experimental` child reads as stable but is never found.
Idempotence therefore needs two conditions:
- the elements' `experimental` children agree (`Catalog.Consistent`);
- each input element has such a child.

## Model

| member | source | states |
|---|---|---|
| `Catalog.Plugins` | qgis_plugin_repo/merger.py:89-103 | one triple per element, in document order, carrying the element's name, version and flag |
| `Catalog.Experimental` | qgis_plugin_repo/merger.py:91-96 | the flag `plugins` reads: the first `experimental` child's flag, false without one; `ExperimentalMeaning` states what that means |
| `Catalog.ExperimentalMeaning` | qgis_plugin_repo/merger.py:90-96 | the flag is true iff the first `experimental` child's text is exactly `True`; it is false when there is no such child |
| `Catalog.FindFirst` | qgis_plugin_repo/merger.py:92-96 | the index of the first child with the tag: no earlier child has it, and `None` exactly when no child has it |
| `Catalog.HasFlag` | qgis_plugin_repo/merger.py:112-119 | true iff some `experimental` child carries the requested flag |
| `Catalog.ConsistentFlag` | qgis_plugin_repo/merger.py:106-119 | for an element whose `experimental` children agree, "some child carries x" iff "it has such a child and its triple's flag is x" |
| `Catalog.OwnFlag` | qgis_plugin_repo/merger.py:112-119 | an element with an `experimental` child is found under its own triple's flag |
| `Merger.Matches` | qgis_plugin_repo/merger.py:109-119 | the per-element test of `plugin_element`: the name and some `experimental` child's flag agree; `MatchesMeaning` states what that means |
| `Merger.MatchesMeaning` | qgis_plugin_repo/merger.py:109-119 | an element matches iff it has the name and some `experimental` child whose text reads as the flag; a matching element has an `experimental` child |
| `Merger.FirstMatch` | qgis_plugin_repo/merger.py:108-119 | the position of the first element with the name and a child carrying the flag; `None` iff no element qualifies |
| `Merger.PluginElement` | qgis_plugin_repo/merger.py:106-119 | finds an element iff one matches; returns the first match; an element without an `experimental` child is never returned |
| `Merger.FoundElementIsTruthy` | qgis_plugin_repo/merger.py:149-150 | a returned element has children, so `if element:` is the same as "an element was found" |
| `Merger.DiffPlugins` | qgis_plugin_repo/merger.py:122-129 | a subsequence of the input; each triple keeps its input multiplicity if absent from the output, else it drops out; empty iff every input triple is in the output |
| `Merger.RemoveAt` | qgis_plugin_repo/merger.py:152 | `remove(element)` of the element at a position: one element fewer; `RemoveAtMeaning` states which |
| `Merger.RemoveAtMeaning` | qgis_plugin_repo/merger.py:152 | the elements before the position stay, the later ones shift down by one, and exactly one occurrence of the removed element leaves the catalog |
| `Merger.RemoveFirstMatch` | qgis_plugin_repo/merger.py:147-152 | the output without its first element matching the name and flag; unchanged when none matches |
| `Merger.MergeStep` | qgis_plugin_repo/merger.py:147-156 | succeeds iff an input element matches; otherwise fails with `AppendNone`; on success the result is the output without its first match, plus the first matching input element at the end |
| `Merger.MergeStepLength` | qgis_plugin_repo/merger.py:149-156 | a step keeps the length when an output element matched and adds one otherwise |
| `Merger.MergeStepSources` | qgis_plugin_repo/merger.py:147-156 | every element after a step comes from the output or the input |
| `Merger.MergeStepKeepsUnmatched` | qgis_plugin_repo/merger.py:147-156 | the elements the triple does not match keep their relative order through the step |
| `Merger.MergeAll` | qgis_plugin_repo/merger.py:147-156 | the loop as a fold: the length grows by at most one per triple; elements come from the output or the input; a failure names a changed triple no input element matches |
| `Merger.Merge` | qgis_plugin_repo/merger.py:131-158 | a missing destination fails with `FileDoesNotExist`; an empty diff leaves the catalog as it was; the result is no shorter than the output and at most the input's length longer; a failure names an input triple absent from the output and unmatched by every input element |
| `Merger.MergeAllKeepsUntouched` | qgis_plugin_repo/merger.py:147-156 | output elements no changed triple matches survive the fold unchanged and in order |
| `Merger.MergeKeepsUntouched` | qgis_plugin_repo/merger.py:131-158 | the same for a whole merge: only matched elements are removed |
| `Merger.OppositeFlagNotMatched` | qgis_plugin_repo/merger.py:112-119 | for an element whose `experimental` children agree: the triple with its name and the opposite flag does not match it, so it is left alone |
| `Merger.MergeIntoEmpty` | tests/test_merger.py:35-58 | merging one element that has an `experimental` child into the empty template yields exactly that element |
| `Merger.MatchedIdentity` | qgis_plugin_repo/merger.py:112-119 | for an element whose `experimental` children agree, a match means its triple has the looked-up name and flag |
| `Merger.StepSucceeds` | qgis_plugin_repo/merger.py:154-156 | when every input element has an `experimental` child, the step for an input triple finds an element to append |
| `Merger.FoundCarries` | qgis_plugin_repo/merger.py:154-156 | with unique input identities and agreeing `experimental` children, the first input element matching an input triple carries exactly that triple |
| `Merger.StepInstalls` | qgis_plugin_repo/merger.py:154-156 | when every input element has an `experimental` child, the input elements' `experimental` children agree and no two input triples share a name and flag: the step for an input triple succeeds, its appended last element carries exactly that triple, and so the triple is among the result's triples |
| `Merger.StepKeeps` | qgis_plugin_repo/merger.py:149-152 | when the catalog's elements have agreeing `experimental` children and no two input triples share a name and flag: a step removes no element carrying another input triple |
| `Merger.MergeStepCovers` | qgis_plugin_repo/merger.py:147-156 | when every input element has an `experimental` child, all elements have agreeing `experimental` children and no two input triples share a name and flag: a step for an input triple succeeds, keeps every element consistent, installs its triple and keeps the input triples already present |
| `Merger.MergeAllCovers` | qgis_plugin_repo/merger.py:147-156 | under the same premises as `MergeStepCovers`, for changed triples taken from the input: the fold succeeds and every input triple that was present or changed is in the catalog |
| `Merger.MergeIdempotent` | qgis_plugin_repo/merger.py:139-147 | when every input element has an `experimental` child, all elements have agreeing `experimental` children and no two input triples share a name and flag: the merge succeeds, and a second merge computes an empty diff and returns the catalog unchanged |
| `MergeExamples.MergeStableRelease` | tests/test_merger.py:60-92 | the stable 0.5.0 element is removed and the stable 0.6.0 element is appended last; the experimental sibling and atlasprint stay; the count stays three |
| `MergeExamples.MergeExperimentalRelease` | tests/test_merger.py:94-126 | an experimental 0.7.0 replaces only the experimental entry |
| `MergeExamples.MergeWithoutFlagAborts` | qgis_plugin_repo/merger.py:155-156 | an input element without an `experimental` child is never found, and the merge aborts on `append(None)` |
| `MergeExamples.MergeMissingDestination` | qgis_plugin_repo/merger.py:133-134 | a missing destination aborts the merge |
| `Seqs.Filter` | qgis_plugin_repo/dispatcher.py:42-46 | the kept elements form a subsequence; an element is in the result iff it is in the input and accepted |
| `Seqs.FilterCount` | qgis_plugin_repo/merger.py:124-127 | filtering keeps every occurrence of an accepted element and none of a rejected one |
| `Seqs.FilterCons` | qgis_plugin_repo/dispatcher.py:43-45 | the first candidate is kept exactly when the search accepts it, ahead of what the rest yields |
| `Text.Split` | qgis_plugin_repo/dispatcher.py:33-34 | at least one piece; no piece contains the separator; joining gives the string back |
| `Text.SplitJoin` | qgis_plugin_repo/dispatcher.py:33-34 | separator-free pieces split back out of their join |
| `Text.ParseInt` | qgis_plugin_repo/dispatcher.py:38 | `int()` succeeds iff the text is an optional sign followed by one or more digits |
| `Text.IntToString` | qgis_plugin_repo/dispatcher.py:40 | the `{v}` rendering of a minor: never empty, starting with a digit iff the minor is not negative and with `-` otherwise |
| `Text.ParseLeadingZeros` | qgis_plugin_repo/dispatcher.py:38 | `int()` of an optional sign, any run of zeros and `str(n)` is `n`, negated after `-` |
| `Text.DigitsForm` | qgis_plugin_repo/dispatcher.py:38 | every digit string is a run of zeros followed by the rendering of its value, so `ParseLeadingZeros` fixes the value of every text `int()` accepts |
| `Text.RenderDigits` | qgis_plugin_repo/dispatcher.py:38-40 | `str(int(s)) == s` for a digit string without leading zeros |
| `Text.ZeroPrefixValue` | qgis_plugin_repo/dispatcher.py:38 | leading zeros do not change the value of a digit string |
| `Text.ParseRendered` | qgis_plugin_repo/dispatcher.py:38-40 | `int(str(n)) == n`: the token text of a minor parses back to it |
| `Text.Contains` | qgis_plugin_repo/dispatcher.py:44 | true iff the token occurs at some position of the name |
| `Text.SkipPrefix` | qgis_plugin_repo/dispatcher.py:44 | a prefix lacking the token's first character cannot hold or start an occurrence |
| `Dispatcher.AllChildren` | qgis_plugin_repo/dispatcher.py:55-56 | every child of every plugin element is scanned |
| `Dispatcher.LastText` | qgis_plugin_repo/dispatcher.py:55-61 | the text of the last child with the tag, or the default when there is none |
| `Dispatcher.VersionsForPlugin` | qgis_plugin_repo/dispatcher.py:48-63 | `3.0` / `3.99` when no such child exists; otherwise the text of the last `qgis_minimum_version` / `qgis_maximum_version` child across all plugins |
| `Dispatcher.VersionRange` | qgis_plugin_repo/dispatcher.py:32-38 | a minimum without a `.` fails with `MissingMinor`; success needs a `.` in both versions; the major never contains a `.` |
| `Dispatcher.VersionRangeOfDotted` | qgis_plugin_repo/dispatcher.py:33-40 | for versions `<major>.<minor>[.<more>]` with any minor texts: a minor `int()` rejects fails with `NotAnInteger` of that text, the minimum's first; otherwise the range is the minimum's major with the two parsed minors; further components and the maximum's major play no part |
| `Dispatcher.MinimumNotAnInteger` | qgis_plugin_repo/dispatcher.py:33-38 | a minimum whose minor `int()` rejects fails with `NotAnInteger` of that minor, whatever the maximum is, with or without a `.` |
| `Dispatcher.MaximumWithoutMinor` | qgis_plugin_repo/dispatcher.py:34-38 | a maximum without a `.` fails with `MissingMinor` of the maximum once the minimum's minor has parsed |
| `Dispatcher.DottedForm` | qgis_plugin_repo/dispatcher.py:33-34 | every version with a `.` has the `<major>.<minor>[.<more>]` shape, so `VersionRange`'s own clause for a minimum without a `.`, `MinimumNotAnInteger`, `MaximumWithoutMinor` and `VersionRangeOfDotted` cover every pair of versions |
| `Dispatcher.DottedSplit` | qgis_plugin_repo/dispatcher.py:33-34 | `major.minor[.more]` splits into the major and the minor's text |
| `Dispatcher.RenderedRange` | qgis_plugin_repo/dispatcher.py:33-38 | minors written as `str(n)` parse back to `n` |
| `Dispatcher.EvenMinors` | qgis_plugin_repo/dispatcher.py:38-39 | exactly the even integers of `[lo, hi]`, ascending |
| `Dispatcher.Token` | qgis_plugin_repo/dispatcher.py:40 | the text `<major>.<v>` the pattern for minor v matches; `TokenMinor` states what it holds |
| `Dispatcher.TokenMinor` | qgis_plugin_repo/dispatcher.py:38-40 | a token is the major, a `.` and a text that `int()` reads back as the minor |
| `Dispatcher.TokenInjective` | qgis_plugin_repo/dispatcher.py:40 | distinct minors give distinct tokens |
| `Dispatcher.Tokens` | qgis_plugin_repo/dispatcher.py:40 | one `<major>.<v>` token per minor, in order |
| `Dispatcher.AnyContains` | qgis_plugin_repo/dispatcher.py:41-44 | some token of the list occurs in the name; false for an empty list, which is why `Search` treats the empty pattern apart |
| `Dispatcher.Search` | qgis_plugin_repo/dispatcher.py:41-44 | the empty pattern matches every name; otherwise a name matches iff some token occurs in it |
| `Dispatcher.SearchMeaning` | qgis_plugin_repo/dispatcher.py:38-45 | the token search selects a name iff one of two holds: no even minor is in range, or the name contains `<major>.<v>` for an even in-range v |
| `Dispatcher.SelectTargets` | qgis_plugin_repo/dispatcher.py:30-46 | parse errors propagate; the result is the in-order subsequence of exactly the selected candidates |
| `Dispatcher.XmlFilesForPlugin` | qgis_plugin_repo/dispatcher.py:30-46 | the selection uses the bounds read from the input catalog |
| `Dispatcher.NoEvenMinorSelectsAll` | qgis_plugin_repo/dispatcher.py:38-45 | with no even minor in range, every candidate is selected |
| `Dispatcher.InvertedRangeSelectsAll` | qgis_plugin_repo/dispatcher.py:38-45 | an inverted range selects every candidate |
| `Dispatcher.OddMinorNoToken` | qgis_plugin_repo/dispatcher.py:39-40 | an odd minor never contributes a token |
| `DispatchExamples.TwoDigitTag` | qgis_plugin_repo/dispatcher.py:44 | a two-digit token occurs in a name tagged with two digits iff the digits are the tag |
| `DispatchExamples.OneDigitTag` | qgis_plugin_repo/dispatcher.py:44 | no two-digit token occurs in the name tagged `3.4` |
| `DispatchExamples.TagSelection` | qgis_plugin_repo/dispatcher.py:38-45 | for two-digit bounds lo < hi, so that the range holds an even minor: a file tagged with a two-digit minor is selected iff that minor is even and in range |
| `DispatchExamples.OneDigitFileRejected` | qgis_plugin_repo/dispatcher.py:38-45 | for two-digit bounds lo < hi, so that the range holds an even minor: the range never selects the file tagged `3.4` |
| `DispatchExamples.CandidatesSelection` | tests/test_merger.py:163-210 | for any bounds `3.lo`–`3.hi` with two-digit lo < hi, so that the range holds an even minor, the five test candidates reduce to the in-range files among 3.10, 3.16, 3.22 and 3.28 |
| `DispatchExamples.FixtureVersions` | tests/test_merger.py:175-201 | the bounds read from the reconstructed fixtures are `3.10`–`3.22` and `3.10`–`3.99`, the values the tests assert |
| `DispatchExamples.StableSelection` | tests/test_merger.py:178-185 | any versions whose minors parse to 10 and 22 select 3.10, 3.16 and 3.22 |
| `DispatchExamples.DevSelection` | tests/test_merger.py:202-209 | any versions whose minors parse to 10 and 99 select 3.10, 3.16, 3.22 and 3.28 |
| `DispatchExamples.StableTargets` | tests/test_merger.py:178-185 | bounds 3.10–3.22 select 3.10, 3.16 and 3.22 |
| `DispatchExamples.DevTargets` | tests/test_merger.py:202-209 | bounds 3.10–3.99 also select 3.28 |
| `DispatchExamples.StableDispatch` | tests/test_merger.py:163-185 | the stable release is dispatched to 3.10, 3.16 and 3.22 |
| `DispatchExamples.DevDispatch` | tests/test_merger.py:187-210 | the development release is dispatched to 3.10, 3.16, 3.22 and 3.28 |
| `DispatchExamples.ShortTokenSelectsLongerTag` | qgis_plugin_repo/dispatcher.py:44 | the token `3.2` selects the file tagged `3.22`: there is no digit boundary |
| `DispatchExamples.MissingMinorAborts` | qgis_plugin_repo/dispatcher.py:38 | a minimum of `3` aborts with `MissingMinor` (Python's `IndexError`) |
| `DispatchExamples.NonNumericMinorAborts` | qgis_plugin_repo/dispatcher.py:38 | a minor of `x` aborts with `NotAnInteger` (Python's `ValueError`) |
| `DispatchExamples.LeadingZeroMinor` | qgis_plugin_repo/dispatcher.py:38-40 | `3.04` is the minor 4, so its token is `3.4`; an instance of `VersionRangeOfDotted` and `ParseLeadingZeros` |

## Left out

- XML parsing and serialisation with ElementTree are not modelled; catalogs are
  taken already parsed. This covers:
  - reading the input and output files;
  - writing the empty template (`Merger.init`, `xml_template`);
  - the final `output_tree.write`.
- Merger.Merge: the result is the catalog that would be written. The file
  write itself is I/O.
- Catalog.PluginElem keeps only the `name` and `version` attributes, and
  `Catalog.Child` only a child's tag and text. Other attributes, the attributes
  of children and nested sub-elements are dropped from the model. This is
  harmless: the engine moves whole elements and reads only `name`, `version`
  and the `experimental` children, so what it does with an element never
  depends on the dropped parts.
- The HTTP fetch of a URL input (`requests.get`) is network I/O.
- URL detection (`input_is_url`, `tools.is_url`) is left out. It wraps
  `urlparse` and filesystem existence.
- `Merger.exists` becomes the `destinationExists` parameter of `Merger.Merge`.
- The command line in `__main__.py` is plumbing and is not modelled. This
  includes argument parsing, the refusal of several plugins with several
  targets, and exit codes.
- `Merger.count()` is called by the command line and the tests but is not
  defined in `merger.py`. It is not modelled.
- All `print` output is omitted, including the dispatcher's warning about
  versions with three components.
- Text.ParseInt accepts an optional sign and ASCII digits only. Python's
  `int()` also accepts surrounding whitespace, `_` separators and non-ASCII
  digits; those forms are outside the model.
- Text.Contains: the token becomes a regular expression in the source. The
  model treats it as literal text. The two agree when the major contains no
  regex metacharacter other than the escaped `.`.
- Catalog.Child models an element without text (ElementTree's `None`) as the
  empty string. For a version child without text, `versions_for_plugin` returns
  `None` and the source raises `AttributeError` on `None.split`
  (`dispatcher.py:33-34`). The model instead splits `""` and fails with
  `MissingMinor` or `NotAnInteger`; it never succeeds where the source does not.
- DispatchExamples.StableDispatch and `DispatchExamples.DevDispatch` use the
  test fixtures `pgmetadata_stable.xml` and `pgmetadata_experimental.xml`, which
  are not part of this model. Their contents are reconstructed from the
  versions the tests assert.
- DispatchExamples.FixtureVersions states the bounds of those reconstructed
  fixtures. The tests assert only the resulting texts (`3.10`, `3.22`, `3.99`),
  so the development fixture's lack of a `qgis_maximum_version` child is a
  reconstruction: an explicit `3.99` child would give the same bounds.
- MergeExamples.Entry rebuilds the entries of `pgmetadata_stable.xml` and
  `pgmetadata_experimental.xml` with their `experimental` child only. The
  version children that `DispatchExamples.StableInput` and
  `DispatchExamples.DevInput` add are never read by the merge, which moves
  whole elements.
- MergeExamples.Repository rebuilds `fixtures/plugins.xml`, which is not part
  of this model, from the name, version and flag triples the tests assert.
