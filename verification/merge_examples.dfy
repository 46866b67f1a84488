/** The catalogs of the merge test cases, reduced to the children the merge
    engine reads. */
module MergeExamples {
  import opened Wrappers
  import opened Catalog
  import opened Merger

  function Entry(name: string, version: string, flag: string): PluginElem
  {
    PluginElem(name, version, [Child(ExperimentalTag, flag)])
  }

  /** The three-entry repository: an experimental and a stable PgMetadata, and
      a stable atlasprint. */
  function Repository(): Catalog
  {
    [Entry("PgMetadata", "0.4.0", "True"), Entry("PgMetadata", "0.5.0", "False"), Entry("atlasprint", "v3.2.2", "False")]
  }

  /** A new stable PgMetadata replaces the stable entry, which moves to the end;
      the experimental sibling and atlasprint stay, and the count stays three. */
  lemma MergeStableRelease()
    ensures Merge(true, [Entry("PgMetadata", "0.6.0", "False")], Repository()) ==
      Success([Entry("PgMetadata", "0.4.0", "True"), Entry("atlasprint", "v3.2.2", "False"), Entry("PgMetadata", "0.6.0", "False")])
  {
    var input := [Entry("PgMetadata", "0.6.0", "False")];
    var out := Repository();
    var p := Plugin("PgMetadata", false, "0.6.0");
    assert Plugins(input) == [p];
    assert Plugins(out) == [Plugin("PgMetadata", true, "0.4.0"), Plugin("PgMetadata", false, "0.5.0"), Plugin("atlasprint", false, "v3.2.2")];
    assert DiffPlugins([p], Plugins(out)) == [p];
    assert !Matches(out[0], "PgMetadata", false);
    assert FirstMatch(out, "PgMetadata", false) == Some(1);
    assert FirstMatch(input, "PgMetadata", false) == Some(0);
    assert PluginElement(input, "PgMetadata", false) == Some(input[0]);
    assert RemoveAt(out, 1) + [input[0]] == [out[0], out[2], input[0]];
    assert MergeStep(out, input, p) == Success([out[0], out[2], input[0]]);
    assert [p][1..] == [];
  }

  /** A new experimental PgMetadata replaces the experimental entry only. */
  lemma MergeExperimentalRelease()
    ensures Merge(true, [Entry("PgMetadata", "0.7.0", "True")], Repository()) ==
      Success([Entry("PgMetadata", "0.5.0", "False"), Entry("atlasprint", "v3.2.2", "False"), Entry("PgMetadata", "0.7.0", "True")])
  {
    var input := [Entry("PgMetadata", "0.7.0", "True")];
    var out := Repository();
    var p := Plugin("PgMetadata", true, "0.7.0");
    assert Plugins(input) == [p];
    assert Plugins(out) == [Plugin("PgMetadata", true, "0.4.0"), Plugin("PgMetadata", false, "0.5.0"), Plugin("atlasprint", false, "v3.2.2")];
    assert DiffPlugins([p], Plugins(out)) == [p];
    assert FirstMatch(out, "PgMetadata", true) == Some(0);
    assert FirstMatch(input, "PgMetadata", true) == Some(0);
    assert PluginElement(input, "PgMetadata", true) == Some(input[0]);
    assert RemoveAt(out, 0) + [input[0]] == [out[1], out[2], input[0]];
    assert MergeStep(out, input, p) == Success([out[1], out[2], input[0]]);
    assert [p][1..] == [];
  }

  /** An element without an `experimental` child reads as stable, but
      `plugin_element` never finds it, so merging it aborts on `append(None)`. */
  lemma MergeWithoutFlagAborts()
    ensures Merge(true, [PluginElem("atlasprint", "v3.3.0", [])], []) ==
      Failure(AppendNone(Plugin("atlasprint", false, "v3.3.0")))
  {
  }

  /** A missing destination aborts before anything is compared. */
  lemma MergeMissingDestination()
    ensures Merge(false, [Entry("PgMetadata", "0.6.0", "False")], Repository()) == Failure(FileDoesNotExist)
  {
  }
}
