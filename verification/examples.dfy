/**
 The scenarios of lib/manager/helmfile-values/extract.spec.ts, on the parsed
 documents js-yaml produces for them. The record `getDep` builds is outside
 this model, so each scenario states which image reference reaches `getDep`
 and what the extractor adds to the record.
 */
module HelmfileExamples {
  import opened Wrappers
  import opened JsValues
  import opened HelmfileUtil
  import opened HelmfileTypes
  import opened HelmfileExtract
  import opened HelmfileProperties

  /** `{registry: container.registry.com, repository: some/repository, tag: 0.0.1}` */
  function SomeRepositoryImage(): Value {
    Obj([("registry", Str("container.registry.com")), ("repository", Str("some/repository")), ("tag", Str("0.0.1"))])
  }

  /** `{repository: another/repository, tag: 0.1.0}` */
  function AnotherRepositoryImage(): Value {
    Obj([("repository", Str("another/repository")), ("tag", Str("0.1.0"))])
  }

  /** A document with one section list holding one section whose `values` has one entry. */
  function OneEntryDoc(sectionKey: string, entry: Value): Value {
    Obj([(sectionKey, Arr([Obj([("name", Str("testRelease")), ("values", Arr([entry]))])]))])
  }

  lemma OneEntryDocDeps(getDep: GetDep, sectionKey: string, entry: Value)
    requires sectionKey == "releases" || sectionKey == "helmfiles"
    requires entry != Null
    ensures DocTraversable(OneEntryDoc(sectionKey, entry))
    ensures DocDeps(getDep, OneEntryDoc(sectionKey, entry)) == ValuesEntryDeps(getDep, entry)
  {
    var section := Obj([("name", Str("testRelease")), ("values", Arr([entry]))]);
    SectionOfOneEntry(getDep, "name", Str("testRelease"), entry);
    OneSection(getDep, section);
    var doc := OneEntryDoc(sectionKey, entry);
    if sectionKey == "releases" {
      assert Lookup(doc.props, "helmfiles") == None by {
        assert |doc.props[0].0| != |"helmfiles"|;
      }
    } else {
      assert Lookup(doc.props, "releases") == None by {
        assert |doc.props[0].0| != |"releases"|;
      }
    }
  }

  /** A stream of one document yields that document's records. */
  lemma OneDocStream(getDep: GetDep, doc: Value)
    requires DocTraversable(doc)
    ensures DocsTraversable([doc]) && DocsDeps(getDep, [doc]) == DocDeps(getDep, doc)
  {
    assert [doc][1..] == [];
  }

  /** "returns null if no sections with values" */
  lemma NoValuesGivesNull(getDep: GetDep)
    ensures var doc := Obj([("releases", Arr([Obj([("name", Str("testRelease"))])]))]);
            DocsTraversable([doc]) && ExtractPackageFile(getDep, Some([doc])) == None
  {
    var section := Obj([("name", Str("testRelease"))]);
    var doc := Obj([("releases", Arr([section]))]);
    assert Lookup(section.props, "values") == None by {
      assert |section.props[0].0| != |"values"|;
    }
    assert Lookup(doc.props, "helmfiles") == None by {
      assert |doc.props[0].0| != |"helmfiles"|;
    }
    assert SectionsDeps(getDep, [section]) == ExtractDependencies(getDep, section) + SectionsDeps(getDep, []);
    OneDocStream(getDep, doc);
  }

  /** "do not crash on invalid helmfile.yaml": a stream js-yaml rejects gives null. */
  lemma ParseFailureGivesNull(getDep: GetDep)
    ensures ExtractPackageFile(getDep, None) == None
  {
  }

  /** The keys the scenarios use. */
  lemma ImageKeys()
    ensures ParentKeyMatches("image") && !ParentKeyMultiMatches("image")
    ensures ParentKeyMultiMatches("images") && !ParentKeyMatches("images")
  {
    SingleKeyMatches();
    SingleKeyMismatches();
    MultiKeyExamples();
  }

  /** A `values` entry `{image: <image>}` yields the one record built from it. */
  lemma SingleImageEntry(getDep: GetDep, image: Value)
    requires LooksLikeImage(image)
    ensures image != Null
    ensures ValuesEntryDeps(getDep, Obj([("image", image)])) == [ProcessDependency(getDep, image).value]
  {
    ImageKeys();
    KeyContribution(getDep, "image", image);
    var es := [("image", image)];
    assert es[1..] == [];
    assert KeysDeps(getDep, es) == KeyDeps(getDep, "image", image);
  }

  /** A structured image with a registry is built by `getHelmDep`. */
  lemma StructuredBuild(getDep: GetDep, registry: string, repository: string, tag: string)
    requires registry != ""
    ensures var image := Obj([("registry", Str(registry)), ("repository", Str(repository)), ("tag", Str(tag))]);
            && LooksLikeImage(image)
            && ProcessDependency(getDep, image) == Some(GetHelmDep(getDep, ImageDependency(registry + "/", repository, tag)))
  {
    StructuredImageReference(registry, repository, tag);
  }

  /** A structured image without a registry is built by `getHelmDep`. */
  lemma StructuredBuildWithoutRegistry(getDep: GetDep, repository: string, tag: string)
    ensures var image := Obj([("repository", Str(repository)), ("tag", Str(tag))]);
            && LooksLikeImage(image)
            && ProcessDependency(getDep, image) == Some(GetHelmDep(getDep, ImageDependency("", repository, tag)))
  {
    StructuredImageWithoutRegistry(repository, tag);
  }

  /** The record of `SomeRepositoryImage`. */
  lemma SomeRepositoryBuild(getDep: GetDep)
    ensures LooksLikeImage(SomeRepositoryImage())
    ensures ProcessDependency(getDep, SomeRepositoryImage()) ==
            Some(GetHelmDep(getDep, ImageDependency("container.registry.com/", "some/repository", "0.0.1")))
  {
    StructuredBuild(getDep, "container.registry.com", "some/repository", "0.0.1");
    assert "container.registry.com" + "/" == "container.registry.com/";
  }

  /** The record of `AnotherRepositoryImage`. */
  lemma AnotherRepositoryBuild(getDep: GetDep)
    ensures LooksLikeImage(AnotherRepositoryImage())
    ensures ProcessDependency(getDep, AnotherRepositoryImage()) ==
            Some(GetHelmDep(getDep, ImageDependency("", "another/repository", "0.1.0")))
  {
    StructuredBuildWithoutRegistry(getDep, "another/repository", "0.1.0");
  }

  /** "parse release image": one record, built by `getHelmDep` from
      `container.registry.com/some/repository:0.0.1`. */
  lemma ReleaseImage(getDep: GetDep)
    ensures var doc := OneEntryDoc("releases", Obj([("image", SomeRepositoryImage())]));
            && DocsTraversable([doc])
            && ExtractPackageFile(getDep, Some([doc])) ==
               Some(PackageFile([GetHelmDep(getDep, ImageDependency("container.registry.com/", "some/repository", "0.0.1"))],
                                DockerDatasource))
  {
    var entry := Obj([("image", SomeRepositoryImage())]);
    SomeRepositoryBuild(getDep);
    SingleImageEntry(getDep, SomeRepositoryImage());
    OneEntryDocDeps(getDep, "releases", entry);
    OneDocStream(getDep, OneEntryDoc("releases", entry));
  }

  /** "parse inline image": one record, `getDep`'s own, built from the same
      image reference as the structured form. */
  lemma InlineImage(getDep: GetDep)
    ensures var doc := OneEntryDoc("releases", Obj([("image", Str("container.registry.com/some/repository:0.0.1"))]));
            && DocsTraversable([doc])
            && ExtractPackageFile(getDep, Some([doc])) ==
               Some(PackageFile([getDep("container.registry.com/some/repository:0.0.1", None)], DockerDatasource))
  {
    var image := Str("container.registry.com/some/repository:0.0.1");
    var entry := Obj([("image", image)]);
    SingleImageEntry(getDep, image);
    OneEntryDocDeps(getDep, "releases", entry);
    OneDocStream(getDep, OneEntryDoc("releases", entry));
  }

  /** `images: {foo: <some/repository>, bar: <another/repository>}` */
  function MultiImagesEntry(): Value {
    Obj([("images", Obj([("foo", SomeRepositoryImage()), ("bar", AnotherRepositoryImage())]))])
  }

  /** The two records of the group, in key order. */
  lemma MultiImagesEntryDeps(getDep: GetDep)
    ensures ValuesEntryDeps(getDep, MultiImagesEntry()) ==
            [GetHelmDep(getDep, ImageDependency("container.registry.com/", "some/repository", "0.0.1")),
             GetHelmDep(getDep, ImageDependency("", "another/repository", "0.1.0"))]
  {
    var group := Obj([("foo", SomeRepositoryImage()), ("bar", AnotherRepositoryImage())]);
    SomeRepositoryBuild(getDep);
    AnotherRepositoryBuild(getDep);
    ImageKeys();
    MatchesHeuristicMultiIff("images", group);
    assert MatchesHeuristicMulti("images", group);
    KeyContribution(getDep, "images", group);
    var deps := KeyDeps(getDep, "images", group);
    assert deps == [deps[0], deps[1]];
    var es := MultiImagesEntry().props;
    assert es[1..] == [];
    assert KeysDeps(getDep, es) == deps;
  }

  /** "parse release multi images": both images, `foo` before `bar`; a
      `helmfiles` list holding the same section gives the same records. */
  lemma MultiImages(getDep: GetDep, sectionKey: string)
    requires sectionKey == "releases" || sectionKey == "helmfiles"
    ensures var doc := OneEntryDoc(sectionKey, MultiImagesEntry());
            && DocsTraversable([doc])
            && ExtractPackageFile(getDep, Some([doc])) ==
               Some(PackageFile([GetHelmDep(getDep, ImageDependency("container.registry.com/", "some/repository", "0.0.1")),
                                 GetHelmDep(getDep, ImageDependency("", "another/repository", "0.1.0"))],
                                DockerDatasource))
  {
    MultiImagesEntryDeps(getDep);
    OneEntryDocDeps(getDep, sectionKey, MultiImagesEntry());
    OneDocStream(getDep, OneEntryDoc(sectionKey, MultiImagesEntry()));
  }

  /** The document of "parse nested state multi images": one `helmfiles`
      section, named by its `path`, whose `values` hold the two-image group. */
  function NestedStateDoc(): Value {
    Obj([("helmfiles", Arr([Obj([("path", Str("another/helmfile.yaml")), ("values", Arr([MultiImagesEntry()]))])]))])
  }

  lemma NestedStateDocDeps(getDep: GetDep)
    ensures DocTraversable(NestedStateDoc())
    ensures DocDeps(getDep, NestedStateDoc()) == ValuesEntryDeps(getDep, MultiImagesEntry())
  {
    var section := Obj([("path", Str("another/helmfile.yaml")), ("values", Arr([MultiImagesEntry()]))]);
    SectionOfOneEntry(getDep, "path", Str("another/helmfile.yaml"), MultiImagesEntry());
    OneSection(getDep, section);
    var doc := NestedStateDoc();
    assert Lookup(doc.props, "releases") == None by {
      assert |doc.props[0].0| != |"releases"|;
    }
    assert SectionList(AsDoc(doc).helmfiles) == [section];
    assert DocDeps(getDep, doc) == SectionsDeps(getDep, []) + SectionsDeps(getDep, [section]);
  }

  /** "parse nested state multi images": both images, `foo` before `bar`. */
  lemma NestedMultiImages(getDep: GetDep)
    ensures DocsTraversable([NestedStateDoc()])
    ensures ExtractPackageFile(getDep, Some([NestedStateDoc()])) ==
            Some(PackageFile([GetHelmDep(getDep, ImageDependency("container.registry.com/", "some/repository", "0.0.1")),
                              GetHelmDep(getDep, ImageDependency("", "another/repository", "0.1.0"))],
                             DockerDatasource))
  {
    MultiImagesEntryDeps(getDep);
    NestedStateDocDeps(getDep);
    OneDocStream(getDep, NestedStateDoc());
  }

  /** An `images` group of two image strings yields `getDep`'s record for each,
      in key order. */
  lemma InlineGroupDeps(getDep: GetDep, first: string, second: string)
    requires first != "" && second != ""
    ensures ValuesEntryDeps(getDep, Obj([("images", Obj([("foo", Str(first)), ("bar", Str(second))]))])) ==
            [getDep(first, None), getDep(second, None)]
  {
    var group := Obj([("foo", Str(first)), ("bar", Str(second))]);
    ImageKeys();
    MatchesHeuristicMultiIff("images", group);
    assert MatchesHeuristicMulti("images", group);
    KeyContribution(getDep, "images", group);
    var deps := KeyDeps(getDep, "images", group);
    assert deps == [deps[0], deps[1]];
    var es := [("images", group)];
    assert es[1..] == [];
    assert KeysDeps(getDep, es) == deps;
  }

  /** "parse inline multi images": `getDep`'s records for both strings, `foo`
      before `bar`. */
  lemma InlineMultiImages(getDep: GetDep)
    ensures var entry := Obj([("images", Obj([("foo", Str("container.registry.com/some/repository:0.0.1")),
                                              ("bar", Str("another/repository:0.1.0"))]))]);
            var doc := OneEntryDoc("releases", entry);
            && DocsTraversable([doc])
            && ExtractPackageFile(getDep, Some([doc])) ==
               Some(PackageFile([getDep("container.registry.com/some/repository:0.0.1", None),
                                 getDep("another/repository:0.1.0", None)],
                                DockerDatasource))
  {
    var first, second := "container.registry.com/some/repository:0.0.1", "another/repository:0.1.0";
    var entry := Obj([("images", Obj([("foo", Str(first)), ("bar", Str(second))]))]);
    InlineGroupDeps(getDep, first, second);
    OneEntryDocDeps(getDep, "releases", entry);
    OneDocStream(getDep, OneEntryDoc("releases", entry));
  }

  /** An `images` group with one entry that is not image-shaped contributes nothing. */
  lemma RejectedGroupEntry(getDep: GetDep, group: seq<(string, Value)>, i: int)
    requires 0 <= i < |group| && !LooksLikeImage(group[i].1)
    ensures ValuesEntryDeps(getDep, Obj([("images", Obj(group))])) == []
  {
    var entry := Obj([("images", Obj(group))]);
    OneBadEntryRejectsGroup("images", group, i);
    ImageKeys();
    assert KeysDeps(getDep, entry.props) == KeyDeps(getDep, "images", Obj(group)) + KeysDeps(getDep, []);
  }

  /** `{repository: another/repository}` lacks `tag`. */
  lemma RepositoryOnlyIsNoImage()
    ensures !LooksLikeImage(Obj([("repository", Str("another/repository"))]))
  {
    var bad := Obj([("repository", Str("another/repository"))]);
    LooksLikeImageIff(bad);
    assert !HasEntry(bad.props, "tag") by {
      assert |bad.props[0].0| != |"tag"|;
    }
  }

  /** The plural heuristic is all-or-nothing: when one entry of the group lacks
      `tag`, its well-formed sibling is not extracted either. */
  lemma IncompleteGroupGivesNull(getDep: GetDep)
    ensures var entry := Obj([("images", Obj([("foo", SomeRepositoryImage()),
                                              ("bar", Obj([("repository", Str("another/repository"))]))]))]);
            var doc := OneEntryDoc("releases", entry);
            && DocsTraversable([doc])
            && ExtractPackageFile(getDep, Some([doc])) == None
  {
    var group := [("foo", SomeRepositoryImage()), ("bar", Obj([("repository", Str("another/repository"))]))];
    var entry := Obj([("images", Obj(group))]);
    RepositoryOnlyIsNoImage();
    RejectedGroupEntry(getDep, group, 1);
    OneEntryDocDeps(getDep, "releases", entry);
    OneDocStream(getDep, OneEntryDoc("releases", entry));
  }

  /** `{registry: container.registry.com, repository: yetanother/repository, tag: 1.0.0}` */
  function YetAnotherImage(): Value {
    Obj([("registry", Str("container.registry.com")), ("repository", Str("yetanother/repository")), ("tag", Str("1.0.0"))])
  }

  /** The record of `YetAnotherImage`. */
  lemma YetAnotherBuild(getDep: GetDep)
    ensures LooksLikeImage(YetAnotherImage())
    ensures ProcessDependency(getDep, YetAnotherImage()) ==
            Some(GetHelmDep(getDep, ImageDependency("container.registry.com/", "yetanother/repository", "1.0.0")))
  {
    StructuredBuild(getDep, "container.registry.com", "yetanother/repository", "1.0.0");
    assert "container.registry.com" + "/" == "container.registry.com/";
  }

  /** An `images` group with one entry yields that entry's record. */
  lemma ImageGroupOfOne(getDep: GetDep, name: string, image: Value)
    requires LooksLikeImage(image)
    ensures image != Null
    ensures ValuesEntryDeps(getDep, Obj([("images", Obj([(name, image)]))])) ==
            [ProcessDependency(getDep, image).value]
  {
    var group := Obj([(name, image)]);
    ImageKeys();
    MatchesHeuristicMultiIff("images", group);
    assert MatchesHeuristicMulti("images", group);
    KeyContribution(getDep, "images", group);
    var deps := KeyDeps(getDep, "images", group);
    assert deps == [deps[0]];
    var es := [("images", group)];
    assert es[1..] == [];
    assert KeysDeps(getDep, es) == deps;
  }

  /** A section `{<other>: …, values: [entry]}` yields the records of its one entry. */
  lemma SectionOfOneEntry(getDep: GetDep, other: string, otherValue: Value, entry: Value)
    requires other != "values" && entry != Null
    ensures SectionTraversable(Obj([(other, otherValue), ("values", Arr([entry]))]))
    ensures ExtractDependencies(getDep, Obj([(other, otherValue), ("values", Arr([entry]))])) ==
            ValuesEntryDeps(getDep, entry)
  {
    var section := Obj([(other, otherValue), ("values", Arr([entry]))]);
    assert Lookup(section.props, "values") == Some(Arr([entry])) by {
      assert section.props[1..][0].0 == "values";
    }
    assert [entry][1..] == [];
    assert ValuesDeps(getDep, [entry]) == ValuesEntryDeps(getDep, entry);
  }

  /** A list of one section yields that section's records. */
  lemma OneSection(getDep: GetDep, section: Value)
    requires SectionTraversable(section)
    ensures SectionsTraversable([section])
    ensures SectionsDeps(getDep, [section]) == ExtractDependencies(getDep, section)
  {
    assert [section][1..] == [];
  }

  /** The release of the all-sections scenario. */
  function AllSectionsRelease(): Value {
    Obj([("name", Str("testRelease")),
         ("values", Arr([Obj([("images", Obj([("bar", YetAnotherImage())]))])]))])
  }

  /** The nested helmfile of the all-sections scenario. */
  function AllSectionsNested(): Value {
    Obj([("path", Str("another/helmfile.yaml")),
         ("values", Arr([Obj([("images", Obj([("bar", AnotherRepositoryImage())]))])]))])
  }

  /** The `environments` of the all-sections scenario, which define an image too. */
  function AllSectionsEnvironments(): Value {
    Obj([("default", Obj([("values", Obj([("foo", SomeRepositoryImage())]))]))])
  }

  /** `environments`, then `helmfiles`, then `releases`, as written in the scenario. */
  function AllSectionsDoc(): Value {
    Obj([("environments", AllSectionsEnvironments()),
         ("helmfiles", Arr([AllSectionsNested()])),
         ("releases", Arr([AllSectionsRelease()]))])
  }

  lemma AllSectionsReleaseDeps(getDep: GetDep)
    ensures SectionTraversable(AllSectionsRelease())
    ensures ExtractDependencies(getDep, AllSectionsRelease()) ==
            [GetHelmDep(getDep, ImageDependency("container.registry.com/", "yetanother/repository", "1.0.0"))]
  {
    YetAnotherBuild(getDep);
    ImageGroupOfOne(getDep, "bar", YetAnotherImage());
    SectionOfOneEntry(getDep, "name", Str("testRelease"), Obj([("images", Obj([("bar", YetAnotherImage())]))]));
  }

  lemma AllSectionsNestedDeps(getDep: GetDep)
    ensures SectionTraversable(AllSectionsNested())
    ensures ExtractDependencies(getDep, AllSectionsNested()) ==
            [GetHelmDep(getDep, ImageDependency("", "another/repository", "0.1.0"))]
  {
    AnotherRepositoryBuild(getDep);
    ImageGroupOfOne(getDep, "bar", AnotherRepositoryImage());
    SectionOfOneEntry(getDep, "path", Str("another/helmfile.yaml"), Obj([("images", Obj([("bar", AnotherRepositoryImage())]))]));
  }

  /** A document `{environments, helmfiles: [nested], releases: [release]}`
      yields the release's records, then the nested helmfile's. */
  lemma AllSectionsShape(getDep: GetDep, env: Value, nested: Value, release: Value)
    requires SectionTraversable(nested) && SectionTraversable(release)
    ensures var doc := Obj([("environments", env), ("helmfiles", Arr([nested])), ("releases", Arr([release]))]);
            && DocTraversable(doc)
            && DocDeps(getDep, doc) == ExtractDependencies(getDep, release) + ExtractDependencies(getDep, nested)
  {
    var sections := [("helmfiles", Arr([nested])), ("releases", Arr([release]))];
    OneSection(getDep, release);
    OneSection(getDep, nested);
    ReleasesBeforeHelmfiles(getDep, [nested], [release]);
    var none: seq<(string, Value)> := [];
    assert none + sections == sections;
    EnvironmentsIgnored(getDep, none, sections, env);
    var doc := [("environments", env), ("helmfiles", Arr([nested])), ("releases", Arr([release]))];
    assert none + [("environments", env)] + sections == doc by {
      assert |doc| == 3 && doc[1..] == sections;
    }
  }

  lemma AllSectionsDocDeps(getDep: GetDep)
    ensures DocTraversable(AllSectionsDoc())
    ensures DocDeps(getDep, AllSectionsDoc()) ==
            [GetHelmDep(getDep, ImageDependency("container.registry.com/", "yetanother/repository", "1.0.0")),
             GetHelmDep(getDep, ImageDependency("", "another/repository", "0.1.0"))]
  {
    AllSectionsReleaseDeps(getDep);
    AllSectionsNestedDeps(getDep);
    AllSectionsShape(getDep, AllSectionsEnvironments(), AllSectionsNested(), AllSectionsRelease());
  }

  /** "parse helmfile with all sections": `environments` is skipped, and the
      `releases` record comes first although `helmfiles` is written first. */
  lemma AllSections(getDep: GetDep)
    ensures DocsTraversable([AllSectionsDoc()])
    ensures ExtractPackageFile(getDep, Some([AllSectionsDoc()])) ==
            Some(PackageFile([GetHelmDep(getDep, ImageDependency("container.registry.com/", "yetanother/repository", "1.0.0")),
                              GetHelmDep(getDep, ImageDependency("", "another/repository", "0.1.0"))],
                             DockerDatasource))
  {
    AllSectionsDocDeps(getDep);
    OneDocStream(getDep, AllSectionsDoc());
  }

  /**
   The documents of the multi-document scenario, rebuilt from the records the
   scenario expects: one holding only `environments` (whose image is never
   read), one whose `helmfiles` name `another/repository`, and one whose
   `releases` name `yetanother/repository`.
   */
  function EnvironmentsDoc(): Value {
    Obj([("environments", Obj([("default", Obj([("values", Arr([Obj([("image", SomeRepositoryImage())])]))]))]))])
  }

  function FirstDoc(): Value {
    OneEntryDoc("helmfiles", Obj([("images", Obj([("bar", AnotherRepositoryImage())]))]))
  }

  function SecondDoc(): Value {
    OneEntryDoc("releases", Obj([("image", YetAnotherImage())]))
  }

  lemma EnvironmentsDocDeps(getDep: GetDep)
    ensures DocTraversable(EnvironmentsDoc())
    ensures DocDeps(getDep, EnvironmentsDoc()) == []
  {
    var doc := EnvironmentsDoc();
    assert Lookup(doc.props, "releases") == None by {
      assert |doc.props[0].0| != |"releases"|;
    }
    assert Lookup(doc.props, "helmfiles") == None by {
      assert |doc.props[0].0| != |"helmfiles"|;
    }
  }

  lemma FirstDocDeps(getDep: GetDep)
    ensures DocTraversable(FirstDoc())
    ensures DocDeps(getDep, FirstDoc()) == [GetHelmDep(getDep, ImageDependency("", "another/repository", "0.1.0"))]
  {
    AnotherRepositoryBuild(getDep);
    ImageGroupOfOne(getDep, "bar", AnotherRepositoryImage());
    OneEntryDocDeps(getDep, "helmfiles", Obj([("images", Obj([("bar", AnotherRepositoryImage())]))]));
  }

  lemma SecondDocDeps(getDep: GetDep)
    ensures DocTraversable(SecondDoc())
    ensures DocDeps(getDep, SecondDoc()) ==
            [GetHelmDep(getDep, ImageDependency("container.registry.com/", "yetanother/repository", "1.0.0"))]
  {
    YetAnotherBuild(getDep);
    SingleImageEntry(getDep, YetAnotherImage());
    OneEntryDocDeps(getDep, "releases", Obj([("image", YetAnotherImage())]));
  }

  lemma MultiDocumentDeps(getDep: GetDep)
    ensures DocsTraversable([EnvironmentsDoc(), FirstDoc(), SecondDoc()])
    ensures DocsDeps(getDep, [EnvironmentsDoc(), FirstDoc(), SecondDoc()]) ==
            DocDeps(getDep, FirstDoc()) + DocDeps(getDep, SecondDoc())
  {
    EnvironmentsDocDeps(getDep);
    FirstDocDeps(getDep);
    SecondDocDeps(getDep);
    var env, first, second := EnvironmentsDoc(), FirstDoc(), SecondDoc();
    OneDocStream(getDep, env);
    OneDocStream(getDep, first);
    OneDocStream(getDep, second);
    DocsDepsAppend(getDep, [first], [second]);
    assert [first] + [second] == [first, second];
    DocsDepsAppend(getDep, [env], [first, second]);
    assert [env] + [first, second] == [env, first, second];
  }

  /** "parses multidoc yaml": the `helmfiles` record of one document, then the
      `releases` record of the next; the `environments` image is not extracted. */
  lemma MultiDocument(getDep: GetDep)
    ensures DocsTraversable([EnvironmentsDoc(), FirstDoc(), SecondDoc()])
    ensures ExtractPackageFile(getDep, Some([EnvironmentsDoc(), FirstDoc(), SecondDoc()])) ==
            Some(PackageFile([GetHelmDep(getDep, ImageDependency("", "another/repository", "0.1.0")),
                              GetHelmDep(getDep, ImageDependency("container.registry.com/", "yetanother/repository", "1.0.0"))],
                             DockerDatasource))
  {
    MultiDocumentDeps(getDep);
    FirstDocDeps(getDep);
    SecondDocDeps(getDep);
    var another := GetHelmDep(getDep, ImageDependency("", "another/repository", "0.1.0"));
    var yetAnother := GetHelmDep(getDep, ImageDependency("container.registry.com/", "yetanother/repository", "1.0.0"));
    assert DocsDeps(getDep, [EnvironmentsDoc(), FirstDoc(), SecondDoc()]) == [another] + [yetAnother] == [another, yetAnother];
  }
}
