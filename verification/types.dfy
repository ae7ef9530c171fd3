/**
 The record shapes of lib/manager/helmfile-values/types.ts, the part of the
 shared `PackageDependency`/`PackageFile` records this extractor fills in, and
 the constants it attaches to them.
 */
module HelmfileTypes {
  import opened Wrappers
  import opened JsValues

  /** `HelmfileDockerImageDependency` as `sanitizeDependency` returns it. */
  datatype ImageDependency = ImageDependency(registry: string, repository: string, tag: string)

  /** `HelmfileSection`: a release or nested-helmfile entry, seen through the one
      property the extractor reads. */
  datatype HelmfileSection = HelmfileSection(values: Option<Value>)

  /** `Doc`: one YAML document, seen through its three declared properties. */
  datatype Doc = Doc(releases: Option<Value>, environments: Option<Value>, helmfiles: Option<Value>)

  /** `section.values`; reading a property of null throws, hence the precondition. */
  function AsSection(v: Value): HelmfileSection
    requires v != Null
  {
    HelmfileSection(Get(v, "values"))
  }

  /** `doc.releases`, `doc.environments`, `doc.helmfiles`. */
  function AsDoc(v: Value): Doc
    requires v != Null
  {
    Doc(Get(v, "releases"), Get(v, "environments"), Get(v, "helmfiles"))
  }

  /** The fields of the shared `PackageDependency` record that the Dockerfile
      image parser produces or this extractor overrides; `None` is `undefined`. */
  datatype PackageDependency = PackageDependency(
    depName: Option<string>,
    currentValue: Option<string>,
    currentDigest: Option<string>,
    datasource: Option<string>,
    replaceString: Option<string>,
    versioning: Option<string>,
    autoReplaceStringTemplate: Option<string>)

  /** `PackageFile`: the extractor's non-null result. */
  datatype PackageFile = PackageFile(deps: seq<PackageDependency>, datasource: string)

  /**
   `getDep` of the Dockerfile manager, which splits an image reference such as
   `registry.com/repo:tag` into a dependency record. Its body lies outside this
   model, so every operation receives it as a parameter; the second argument is
   `specifyReplaceString`, `None` when the call omits it.
   */
  type GetDep = (string, Option<bool>) -> PackageDependency

  /** The Docker datasource id. */
  const DockerDatasource: string := "docker"

  /** The Docker versioning scheme id. */
  const DockerVersioning: string := "docker"

  /** Puts the new tag back in place, followed by `@digest` when a digest is known. */
  const AutoReplaceTemplate: string := "{{newValue}}{{#if newDigest}}@{{newDigest}}{{/if}}"
}
