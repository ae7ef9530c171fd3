/**
 lib/manager/helmfile-values/extract.ts: turning matched image shapes into
 dependency records (`sanitizeDependency`, `getHelmDep`, `processDependency`),
 walking the in-line `values` of one section (`extractDependencies`), and
 scanning a stream of YAML documents (`extractPackageFile`).
 */
module HelmfileExtract {
  import opened Wrappers
  import opened JsValues
  import opened HelmfileUtil
  import opened HelmfileTypes

  // ---------------------------------------------------------------------------
  // Normaliser and builders
  // ---------------------------------------------------------------------------

  /** `String(image.<field>)`; a missing property is `undefined`. */
  function FieldToStr(field: Option<Value>): string {
    if field.Some? then ToStr(field.value) else "undefined"
  }

  /** `sanitizeDependency`: a truthy `registry` gains one trailing `/`, any
      other registry becomes empty; `repository` and `tag` are coerced to
      strings. Reading properties of null throws, hence the precondition. */
  function SanitizeDependency(image: Value): (d: ImageDependency)
    requires image != Null
    ensures d.registry == "" <==> Get(image, "registry").None? || !Truthy(Get(image, "registry").value)
    ensures d.registry != "" ==> d.registry == ToStr(Get(image, "registry").value) + "/"
    ensures Get(image, "registry").Some? && Get(image, "registry").value.Str? ==>
              d.registry == (if Get(image, "registry").value.text == "" then ""
                             else Get(image, "registry").value.text + "/")
    ensures Get(image, "repository").Some? && Get(image, "repository").value.Str? ==>
              d.repository == Get(image, "repository").value.text
    ensures Get(image, "tag").Some? && Get(image, "tag").value.Str? ==>
              d.tag == Get(image, "tag").value.text
  {
    var registry := Get(image, "registry");
    var prefix := if registry.Some? && Truthy(registry.value) then ToStr(registry.value) + "/" else "";
    ImageDependency(prefix, FieldToStr(Get(image, "repository")), FieldToStr(Get(image, "tag")))
  }

  /** The image reference handed to `getDep` for a structured image. */
  function ImageReference(d: ImageDependency): string {
    d.registry + d.repository + ":" + d.tag
  }

  /** `getHelmDep`: the record `getDep` builds from `registry` `repository`
      `:` `tag` (with `specifyReplaceString` false), with the replacement
      string, versioning and replacement template overridden; every other field
      is `getDep`'s. */
  function GetHelmDep(getDep: GetDep, d: ImageDependency): (dep: PackageDependency)
    ensures dep.replaceString == Some(d.tag)
    ensures dep.versioning == Some(DockerVersioning)
    ensures dep.autoReplaceStringTemplate == Some(AutoReplaceTemplate)
    ensures var base := getDep(d.registry + d.repository + ":" + d.tag, Some(false));
            && dep.depName == base.depName
            && dep.currentValue == base.currentValue
            && dep.currentDigest == base.currentDigest
            && dep.datasource == base.datasource
  {
    getDep(ImageReference(d), Some(false)).(
      replaceString := Some(d.tag),
      versioning := Some(DockerVersioning),
      autoReplaceStringTemplate := Some(AutoReplaceTemplate))
  }

  /** `processDependency`: strings go to `getDep` unchanged, objects (arrays
      included) through `sanitizeDependency` and `getHelmDep`; numbers and
      booleans give null. Null itself would throw in `sanitizeDependency`. */
  function ProcessDependency(getDep: GetDep, image: Value): (r: Option<PackageDependency>)
    requires image != Null
    ensures r.Some? <==> image.Str? || image.Obj? || image.Arr?
    ensures LooksLikeImage(image) ==> r.Some?
    ensures image.Str? ==> r == Some(getDep(image.text, None))
    ensures (image.Obj? || image.Arr?) ==> r == Some(GetHelmDep(getDep, SanitizeDependency(image)))
    ensures (image.Obj? || image.Arr?) ==>
              && r.value.replaceString == Some(SanitizeDependency(image).tag)
              && r.value.versioning == Some(DockerVersioning)
              && r.value.autoReplaceStringTemplate == Some(AutoReplaceTemplate)
  {
    if image.Str? then Some(getDep(image.text, None))
    else if IsObjectType(image) then Some(GetHelmDep(getDep, SanitizeDependency(image)))
    else None
  }

  // ---------------------------------------------------------------------------
  // Walker
  // ---------------------------------------------------------------------------

  /** One record per entry of an accepted `images` group, in key order. */
  function ImagesDeps(getDep: GetDep, es: seq<(string, Value)>): (deps: seq<PackageDependency>)
    requires EveryLooksLikeImage(es)
    ensures |deps| == |es|
    ensures forall i :: 0 <= i < |es| ==>
              LooksLikeImage(es[i].1) && Some(deps[i]) == ProcessDependency(getDep, es[i].1)
  {
    if |es| == 0 then []
    else [ProcessDependency(getDep, es[0].1).value] + ImagesDeps(getDep, es[1..])
  }

  /** What one top-level key of a `values` entry contributes. The `value` of
      `processDependency`'s result exists because both heuristics accept only
      strings and objects, so no null is ever pushed. */
  function KeyDeps(getDep: GetDep, key: string, entry: Value): seq<PackageDependency> {
    if MatchesHeuristic(key, entry) then
      [ProcessDependency(getDep, entry).value]
    else if MatchesHeuristicMulti(key, entry) then
      ImagesDeps(getDep, Entries(entry))
    else
      []
  }

  /** The keys of one `values` entry, in `Object.keys` order. */
  function KeysDeps(getDep: GetDep, es: seq<(string, Value)>): seq<PackageDependency> {
    if |es| == 0 then [] else KeyDeps(getDep, es[0].0, es[0].1) + KeysDeps(getDep, es[1..])
  }

  /** The body of the outer `forEach`: only the top-level keys of one entry. */
  function ValuesEntryDeps(getDep: GetDep, item: Value): seq<PackageDependency>
    requires item != Null
  {
    KeysDeps(getDep, Entries(item))
  }

  /** The entries of a `values` array, in order. */
  function ValuesDeps(getDep: GetDep, items: seq<Value>): seq<PackageDependency>
    requires Null !in items
  {
    if |items| == 0 then [] else ValuesEntryDeps(getDep, items[0]) + ValuesDeps(getDep, items[1..])
  }

  /** The elements of `values` when it is an array, otherwise none. */
  function ValuesItems(section: HelmfileSection): seq<Value> {
    if section.values.Some? && section.values.value.Arr? then section.values.value.elems else []
  }

  /** A section the walker can read without throwing: it is not null, and
      neither is any entry of its `values` array. */
  predicate SectionTraversable(section: Value) {
    section != Null && Null !in ValuesItems(AsSection(section))
  }

  /** `extractDependencies`. */
  function ExtractDependencies(getDep: GetDep, section: Value): (deps: seq<PackageDependency>)
    requires SectionTraversable(section)
    ensures Get(section, "values").None? || !Get(section, "values").value.Arr? ==> deps == []
    ensures !section.Obj? ==> deps == []
  {
    ValuesDeps(getDep, ValuesItems(AsSection(section)))
  }

  // ---------------------------------------------------------------------------
  // Scanner
  // ---------------------------------------------------------------------------

  /** The elements of `doc.releases` / `doc.helmfiles` when it is an array. */
  function SectionList(field: Option<Value>): seq<Value> {
    if field.Some? && field.value.Arr? then field.value.elems else []
  }

  /** Sections the walker can read without throwing. */
  predicate SectionsTraversable(sections: seq<Value>) {
    |sections| == 0 || (SectionTraversable(sections[0]) && SectionsTraversable(sections[1..]))
  }

  /** A document the scanner can read without throwing: it is not null, and
      neither is anything the walker reads below its `releases` and `helmfiles`. */
  predicate DocTraversable(doc: Value) {
    && doc != Null
    && SectionsTraversable(SectionList(AsDoc(doc).releases))
    && SectionsTraversable(SectionList(AsDoc(doc).helmfiles))
  }

  predicate DocsTraversable(docs: seq<Value>) {
    |docs| == 0 || (DocTraversable(docs[0]) && DocsTraversable(docs[1..]))
  }

  /** `sections.forEach(s => deps.push(...extractDependencies(s)))` */
  function SectionsDeps(getDep: GetDep, sections: seq<Value>): seq<PackageDependency>
    requires SectionsTraversable(sections)
  {
    if |sections| == 0 then []
    else ExtractDependencies(getDep, sections[0]) + SectionsDeps(getDep, sections[1..])
  }

  /** One document: every `releases` entry, then every `helmfiles` entry. */
  function DocDeps(getDep: GetDep, doc: Value): seq<PackageDependency>
    requires DocTraversable(doc)
  {
    SectionsDeps(getDep, SectionList(AsDoc(doc).releases)) +
    SectionsDeps(getDep, SectionList(AsDoc(doc).helmfiles))
  }

  /** The `for (const doc of docs)` loop. */
  function DocsDeps(getDep: GetDep, docs: seq<Value>): seq<PackageDependency>
    requires DocsTraversable(docs)
  {
    if |docs| == 0 then [] else DocDeps(getDep, docs[0]) + DocsDeps(getDep, docs[1..])
  }

  /**
   `extractPackageFile`, with js-yaml's `loadAll` replaced by its outcome:
   `None` when parsing threw, otherwise the documents. The result is null
   exactly when parsing failed or no document yielded a dependency; otherwise
   it carries every dependency found, with the Docker datasource.
   */
  function ExtractPackageFile(getDep: GetDep, parsed: Option<seq<Value>>): (r: Option<PackageFile>)
    requires parsed.Some? ==> DocsTraversable(parsed.value)
    ensures parsed.None? ==> r.None?
    ensures parsed.Some? ==> (r.None? <==> DocsDeps(getDep, parsed.value) == [])
    ensures r.Some? ==> r.value.datasource == DockerDatasource && r.value.deps != []
    ensures r.Some? ==> r.value.deps == DocsDeps(getDep, parsed.value)
  {
    if parsed.None? then None
    else
      var deps := DocsDeps(getDep, parsed.value);
      if |deps| == 0 then None else Some(PackageFile(deps, DockerDatasource))
  }
}
