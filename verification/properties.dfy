/**
 Properties of the walker and the scanner of lib/manager/helmfile-values/extract.ts
 that relate several calls: what each key contributes, the order of the
 output, which parts of a document are never read, and when the result is null.
 */
module HelmfileProperties {
  import opened Wrappers
  import opened JsValues
  import opened HelmfileUtil
  import opened HelmfileTypes
  import opened HelmfileExtract

  // ---------------------------------------------------------------------------
  // What one key contributes
  // ---------------------------------------------------------------------------

  /** Both heuristics accept only values `processDependency` turns into a
      record: neither a matched image nor any entry of a matched group ever
      yields null. */
  lemma MatchedValuesAlwaysBuild(getDep: GetDep, key: string, entry: Value)
    ensures MatchesHeuristic(key, entry) ==> entry != Null && ProcessDependency(getDep, entry).Some?
    ensures MatchesHeuristicMulti(key, entry) ==>
              entry != Null &&
              forall i :: 0 <= i < |Entries(entry)| ==>
                Entries(entry)[i].1 != Null && ProcessDependency(getDep, Entries(entry)[i].1).Some?
  {
    MatchesHeuristicMultiIff(key, entry);
  }

  /** A key matched by the single heuristic contributes exactly the one record
      built from its value; a key matched by the plural heuristic contributes
      one record per entry of its value, in key order; any other key
      contributes nothing. */
  lemma KeyContribution(getDep: GetDep, key: string, entry: Value)
    ensures MatchesHeuristic(key, entry) ==>
              entry != Null && KeyDeps(getDep, key, entry) == [ProcessDependency(getDep, entry).value]
    ensures MatchesHeuristicMulti(key, entry) ==>
              var es := Entries(entry);
              var deps := KeyDeps(getDep, key, entry);
              && |deps| == |es|
              && forall i :: 0 <= i < |es| ==>
                   es[i].1 != Null && deps[i] == ProcessDependency(getDep, es[i].1).value
    ensures !MatchesHeuristic(key, entry) && !MatchesHeuristicMulti(key, entry) ==>
              KeyDeps(getDep, key, entry) == []
  {
    HeuristicsDisjoint(key, entry, entry);
    MatchedValuesAlwaysBuild(getDep, key, entry);
  }

  // ---------------------------------------------------------------------------
  // Order
  // ---------------------------------------------------------------------------

  /** Concatenation of record lists is associative. */
  lemma ConcatAssoc(x: seq<PackageDependency>, y: seq<PackageDependency>, z: seq<PackageDependency>)
    ensures x + (y + z) == (x + y) + z
  {
  }

  /** Within one `values` entry, records follow key order. */
  lemma {:induction false} KeysDepsAppend(getDep: GetDep, a: seq<(string, Value)>, b: seq<(string, Value)>)
    ensures KeysDeps(getDep, a + b) == KeysDeps(getDep, a) + KeysDeps(getDep, b)
  {
    if |a| > 0 {
      assert (a + b)[0] == a[0];
      assert (a + b)[1..] == a[1..] + b;
      KeysDepsAppend(getDep, a[1..], b);
      ConcatAssoc(KeyDeps(getDep, a[0].0, a[0].1), KeysDeps(getDep, a[1..]), KeysDeps(getDep, b));
    } else {
      assert a + b == b;
    }
  }

  /** Within one section, records follow the order of the `values` array. */
  lemma {:induction false} ValuesDepsAppend(getDep: GetDep, a: seq<Value>, b: seq<Value>)
    requires Null !in a && Null !in b
    ensures Null !in a + b
    ensures ValuesDeps(getDep, a + b) == ValuesDeps(getDep, a) + ValuesDeps(getDep, b)
  {
    if |a| > 0 {
      assert (a + b)[0] == a[0];
      assert (a + b)[1..] == a[1..] + b;
      ValuesDepsAppend(getDep, a[1..], b);
      ConcatAssoc(ValuesEntryDeps(getDep, a[0]), ValuesDeps(getDep, a[1..]), ValuesDeps(getDep, b));
    } else {
      assert a + b == b;
    }
  }

  /** Records follow the order of the sections in `releases` (or `helmfiles`). */
  lemma {:induction false} SectionsDepsAppend(getDep: GetDep, a: seq<Value>, b: seq<Value>)
    requires SectionsTraversable(a) && SectionsTraversable(b)
    ensures SectionsTraversable(a + b)
    ensures SectionsDeps(getDep, a + b) == SectionsDeps(getDep, a) + SectionsDeps(getDep, b)
  {
    if |a| > 0 {
      assert (a + b)[0] == a[0];
      assert (a + b)[1..] == a[1..] + b;
      SectionsDepsAppend(getDep, a[1..], b);
      ConcatAssoc(ExtractDependencies(getDep, a[0]), SectionsDeps(getDep, a[1..]), SectionsDeps(getDep, b));
    } else {
      assert a + b == b;
    }
  }

  /** Concatenating two readable streams gives a readable stream. */
  lemma {:induction false} DocsTraversableAppend(a: seq<Value>, b: seq<Value>)
    requires DocsTraversable(a) && DocsTraversable(b)
    ensures DocsTraversable(a + b)
  {
    if |a| > 0 {
      assert (a + b)[0] == a[0];
      assert (a + b)[1..] == a[1..] + b;
      DocsTraversableAppend(a[1..], b);
    } else {
      assert a + b == b;
    }
  }

  /** A multi-document stream yields the records of each document in stream
      order: scanning `a` then `b` is scanning `a + b`. */
  lemma {:induction false} DocsDepsAppend(getDep: GetDep, a: seq<Value>, b: seq<Value>)
    requires DocsTraversable(a) && DocsTraversable(b)
    ensures DocsTraversable(a + b)
    ensures DocsDeps(getDep, a + b) == DocsDeps(getDep, a) + DocsDeps(getDep, b)
  {
    DocsTraversableAppend(a, b);
    if |a| > 0 {
      assert (a + b)[0] == a[0];
      assert (a + b)[1..] == a[1..] + b;
      DocsDepsAppend(getDep, a[1..], b);
      ConcatAssoc(DocDeps(getDep, a[0]), DocsDeps(getDep, a[1..]), DocsDeps(getDep, b));
    } else {
      assert a + b == b;
    }
  }

  /** Example of the scan order fixed by `DocDeps`: in a document written with
      `helmfiles` first, every `releases` record still precedes every
      `helmfiles` record. */
  lemma ReleasesBeforeHelmfiles(getDep: GetDep, helmfiles: seq<Value>, releases: seq<Value>)
    requires SectionsTraversable(releases) && SectionsTraversable(helmfiles)
    ensures DocTraversable(Obj([("helmfiles", Arr(helmfiles)), ("releases", Arr(releases))]))
    ensures DocDeps(getDep, Obj([("helmfiles", Arr(helmfiles)), ("releases", Arr(releases))])) ==
            SectionsDeps(getDep, releases) + SectionsDeps(getDep, helmfiles)
  {
    var ps := [("helmfiles", Arr(helmfiles)), ("releases", Arr(releases))];
    assert ps[1..][0].0 == "releases";
    assert Lookup(ps, "releases") == Some(Arr(releases));
    assert Lookup(ps, "helmfiles") == Some(Arr(helmfiles));
  }

  // ---------------------------------------------------------------------------
  // What is never read
  // ---------------------------------------------------------------------------

  /** Keys that end in neither `image` nor `images` contribute nothing, whatever
      their values contain: images nested below the top level are not found. */
  lemma {:induction false} NonImageKeysContributeNothing(getDep: GetDep, es: seq<(string, Value)>)
    requires forall i :: 0 <= i < |es| ==> !ParentKeyMatches(es[i].0) && !ParentKeyMultiMatches(es[i].0)
    ensures KeysDeps(getDep, es) == []
  {
    if |es| > 0 {
      NonImageKeysContributeNothing(getDep, es[1..]);
    }
  }

  /** A `values` entry that is not an object (an array, a string, a number, a
      boolean) contributes nothing: its keys are indices. */
  lemma NonObjectEntriesContributeNothing(getDep: GetDep, item: Value)
    requires item != Null && !item.Obj?
    ensures ValuesEntryDeps(getDep, item) == []
  {
    var es := Entries(item);
    forall i | 0 <= i < |es|
      ensures !ParentKeyMatches(es[i].0) && !ParentKeyMultiMatches(es[i].0)
    {
      IndexKeysNeverMatch(i);
    }
    NonImageKeysContributeNothing(getDep, es);
  }

  /** `environments` is never read: inserting an `environments` entry anywhere
      in a document leaves its records unchanged. */
  lemma EnvironmentsIgnored(getDep: GetDep, ps: seq<(string, Value)>, qs: seq<(string, Value)>, env: Value)
    requires DocTraversable(Obj(ps + qs))
    ensures DocTraversable(Obj(ps + [("environments", env)] + qs))
    ensures DocDeps(getDep, Obj(ps + [("environments", env)] + qs)) == DocDeps(getDep, Obj(ps + qs))
  {
    LookupSkipsOtherKey(ps, qs, "environments", env, "releases");
    LookupSkipsOtherKey(ps, qs, "environments", env, "helmfiles");
  }

  /** No key anywhere in the tree ends in `image` or `images`. */
  ghost predicate NoImageKeys(v: Value) {
    match v
    case Obj(ps) =>
      forall i :: 0 <= i < |ps| ==>
        !ParentKeyMatches(ps[i].0) && !ParentKeyMultiMatches(ps[i].0) && NoImageKeys(ps[i].1)
    case Arr(xs) => forall i :: 0 <= i < |xs| ==> NoImageKeys(xs[i])
    case _ => true
  }

  lemma {:induction false} NoImageKeysLookup(ps: seq<(string, Value)>, key: string)
    requires NoImageKeys(Obj(ps)) && Lookup(ps, key).Some?
    ensures NoImageKeys(Lookup(ps, key).value)
  {
    LookupFindsEntry(ps, key);
    var i :| 0 <= i < |ps| && ps[i] == (key, Lookup(ps, key).value);
  }

  lemma NoImageKeysEntryDeps(getDep: GetDep, item: Value)
    requires item != Null && NoImageKeys(item)
    ensures ValuesEntryDeps(getDep, item) == []
  {
    if item.Obj? {
      NonImageKeysContributeNothing(getDep, item.props);
    } else {
      NonObjectEntriesContributeNothing(getDep, item);
    }
  }

  lemma {:induction false} NoImageKeysValuesDeps(getDep: GetDep, items: seq<Value>)
    requires Null !in items && forall i :: 0 <= i < |items| ==> NoImageKeys(items[i])
    ensures ValuesDeps(getDep, items) == []
  {
    if |items| > 0 {
      NoImageKeysEntryDeps(getDep, items[0]);
      NoImageKeysValuesDeps(getDep, items[1..]);
    }
  }

  lemma NoImageKeysSectionDeps(getDep: GetDep, section: Value)
    requires SectionTraversable(section) && NoImageKeys(section)
    ensures ExtractDependencies(getDep, section) == []
  {
    var values := Get(section, "values");
    if values.Some? && values.value.Arr? {
      NoImageKeysLookup(section.props, "values");
      NoImageKeysValuesDeps(getDep, values.value.elems);
    }
  }

  lemma {:induction false} NoImageKeysSectionsDeps(getDep: GetDep, sections: seq<Value>)
    requires SectionsTraversable(sections)
    requires forall i :: 0 <= i < |sections| ==> NoImageKeys(sections[i])
    ensures SectionsDeps(getDep, sections) == []
  {
    if |sections| > 0 {
      NoImageKeysSectionDeps(getDep, sections[0]);
      NoImageKeysSectionsDeps(getDep, sections[1..]);
    }
  }

  lemma NoImageKeysDocDeps(getDep: GetDep, doc: Value)
    requires DocTraversable(doc) && NoImageKeys(doc)
    ensures DocDeps(getDep, doc) == []
  {
    var d := AsDoc(doc);
    if d.releases.Some? && d.releases.value.Arr? {
      NoImageKeysLookup(doc.props, "releases");
    }
    if d.helmfiles.Some? && d.helmfiles.value.Arr? {
      NoImageKeysLookup(doc.props, "helmfiles");
    }
    NoImageKeysSectionsDeps(getDep, SectionList(d.releases));
    NoImageKeysSectionsDeps(getDep, SectionList(d.helmfiles));
  }

  lemma {:induction false} NoImageKeysDocsDeps(getDep: GetDep, docs: seq<Value>)
    requires DocsTraversable(docs) && forall i :: 0 <= i < |docs| ==> NoImageKeys(docs[i])
    ensures DocsDeps(getDep, docs) == []
  {
    if |docs| > 0 {
      NoImageKeysDocDeps(getDep, docs[0]);
      NoImageKeysDocsDeps(getDep, docs[1..]);
    }
  }

  /** A document stream in which no key ends in `image` or `images` gives null. */
  lemma NoImageKeysNoResult(getDep: GetDep, docs: seq<Value>)
    requires DocsTraversable(docs) && forall i :: 0 <= i < |docs| ==> NoImageKeys(docs[i])
    ensures ExtractPackageFile(getDep, Some(docs)) == None
  {
    NoImageKeysDocsDeps(getDep, docs);
  }

  // ---------------------------------------------------------------------------
  // Structured and inline images
  // ---------------------------------------------------------------------------

  /** The structured `image: {registry, repository, tag}` shape with string
      fields and a non-empty registry is sanitized to `registry/`, and `getDep`
      receives `registry/repository:tag`, the same string the inline shape
      `image: registry/repository:tag` hands it. */
  lemma StructuredImageReference(registry: string, repository: string, tag: string)
    requires registry != ""
    ensures var image := Obj([("registry", Str(registry)), ("repository", Str(repository)), ("tag", Str(tag))]);
            && LooksLikeImage(image)
            && SanitizeDependency(image) == ImageDependency(registry + "/", repository, tag)
            && ImageReference(SanitizeDependency(image)) == registry + "/" + repository + ":" + tag
  {
    var ps := [("registry", Str(registry)), ("repository", Str(repository)), ("tag", Str(tag))];
    assert Lookup(ps[1..][1..], "tag") == Some(Str(tag));
    assert Lookup(ps[1..], "tag") == Some(Str(tag)) by {
      assert |ps[1..][0].0| != |"tag"|;
    }
    assert Lookup(ps, "tag") == Some(Str(tag)) by {
      assert |ps[0].0| != |"tag"|;
    }
    assert Lookup(ps, "repository") == Some(Str(repository)) by {
      assert |ps[0].0| != |"repository"|;
    }
  }

  /** Without a `registry` entry the registry part is empty and `getDep`
      receives `repository:tag`. */
  lemma StructuredImageWithoutRegistry(repository: string, tag: string)
    ensures var image := Obj([("repository", Str(repository)), ("tag", Str(tag))]);
            && LooksLikeImage(image)
            && SanitizeDependency(image) == ImageDependency("", repository, tag)
            && ImageReference(SanitizeDependency(image)) == repository + ":" + tag
  {
    var ps := [("repository", Str(repository)), ("tag", Str(tag))];
    assert Lookup(ps, "tag") == Some(Str(tag)) by {
      assert |ps[0].0| != |"tag"|;
    }
    assert Lookup(ps, "registry") == None by {
      assert |ps[0].0| != |"registry"| && |ps[1..][0].0| != |"registry"|;
      assert Lookup(ps[1..][1..], "registry") == None;
    }
  }
}
