# helmfile-values image extraction, in Dafny

This project models Renovate's `helmfile-values` manager. The manager finds
container-image references in the in-line `values` of a `helmfile.yaml`. The
input is the stream of YAML documents js-yaml has already parsed. For each
document, the manager walks the `releases` sections first, then the `helmfiles`
sections, and never `environments`. It looks only at the top-level keys of each
`values` entry:

- A key ending in `image`, any case, holding a non-empty string or an object
  with `repository` and `tag`, gives one dependency.
- A key ending in `images`, holding an object or array whose every entry has
  one of those two shapes, gives one dependency per entry.

Structured images pass through `sanitizeDependency`. The Dockerfile manager's
`getDep` then builds the record, and `getHelmDep` overrides three fields so the
tag can later be replaced in place. The result is null when nothing is found.

Files:

- `values.dfy`: modules `Wrappers` (`Option`) and `JsValues`. `JsValues` holds
  the parsed YAML value and the JavaScript operations the manager relies on:
  truthiness, `typeof … === 'object'`, `Object.keys`, property access, `in`,
  and `String()`.
- `util.dfy`: module `HelmfileUtil`, the two key patterns and the two shape
  heuristics of `util.ts`, with their characterisations.
- `types.dfy`: module `HelmfileTypes`, the shapes of `types.ts`, the part of
  `PackageDependency`/`PackageFile` the manager touches, and the constants.
- `extract.dfy`: module `HelmfileExtract`, the functions of `extract.ts`.
- `properties.dfy`: module `HelmfileProperties`, lemmas that relate several
  calls: what each key contributes, output order, what is never read, and
  when the result is null.
- `examples.dfy`: module `HelmfileExamples`, the nine scenarios of
  `extract.spec.ts` on their parsed documents. The multi-document scenario
  reads its input from `multidoc.yaml`, which is not part of this model. Its
  three documents are rebuilt from the records that scenario expects.

`getDep` lives in another manager and is not part of this model. Every
operation receives it as a parameter of type `GetDep`. Its second argument is
`Some(b)` when the call passes `specifyReplaceString` and `None` when the call
omits it. The scenarios therefore state which image reference reaches `getDep`
and what the extractor adds to the record. They do not state the `depName` or
`currentValue` that `getDep` computes.

## Model

| member | source | states |
|---|---|---|
| HelmfileUtil.SingleKeyMatches | lib/manager/helmfile-values/util.ts:5 | `image`, `dockerImage` and `IMAGE` match the single pattern. |
| HelmfileUtil.SingleKeyMismatches | lib/manager/helmfile-values/util.ts:5 | `images`, `imageTag` and `imagePullPolicy` do not match the single pattern. |
| HelmfileUtil.MultiKeyExamples | lib/manager/helmfile-values/util.ts:6 | `images` and `sidecarImages` match the plural pattern; `image` does not. |
| HelmfileUtil.ParentKeysDisjoint | lib/manager/helmfile-values/util.ts:5-6 | No key ends both in `image` and in `images`, ignoring case. |
| HelmfileUtil.HeuristicsDisjoint | lib/manager/helmfile-values/util.ts:5-6 | No key is accepted by both heuristics, whatever values they are given. |
| HelmfileUtil.IndexKeysNeverMatch | lib/manager/helmfile-values/extract.ts:85-86 | The index keys `Object.keys` reports for arrays and strings match neither key pattern. |
| HelmfileUtil.LooksLikeImageIff | lib/manager/helmfile-values/util.ts:62-66 | A value passes the shared value test exactly when it is a non-empty string, or an object with both a `repository` and a `tag` entry. Falsy values, numbers, booleans and arrays never pass. |
| HelmfileUtil.MatchesHeuristicIff | lib/manager/helmfile-values/util.ts:20-32 | The single heuristic holds exactly when the key ends in `image` (any case) and the value is a non-empty string or an object with both fields. A falsy value is always rejected. |
| HelmfileUtil.ObjectMatchIgnoresValues | lib/manager/helmfile-values/util.ts:27-29 | For objects, only the presence of `repository` and `tag` matters. Two objects with the same keys in the same order get the same verdict. |
| HelmfileUtil.EveryLooksLikeImageIff | lib/manager/helmfile-values/util.ts:59-68 | The `every` test holds exactly when every entry passes the value test. |
| HelmfileUtil.MatchesHeuristicMultiIff | lib/manager/helmfile-values/util.ts:51-70 | The plural heuristic holds exactly when the key ends in `images`, the value is an object or an array, and every entry passes the value test. A falsy value is always rejected. |
| HelmfileUtil.OneBadEntryRejectsGroup | lib/manager/helmfile-values/util.ts:59-68 | One entry that fails the value test rejects the whole group, however well-formed its siblings are. |
| HelmfileUtil.EmptyGroupAccepted | lib/manager/helmfile-values/util.ts:57-59 | An empty object under an `images` key is accepted, because `every` over no entries is true. |
| HelmfileUtil.ArrayGroupIff | lib/manager/helmfile-values/util.ts:57-59 | An array under an `images` key is accepted exactly when each of its elements passes the value test. |
| HelmfileExtract.SanitizeDependency | lib/manager/helmfile-values/extract.ts:23-33 | The registry is empty exactly when it is absent or falsy. Otherwise it is the coerced registry followed by one `/`, so a non-empty string `r` becomes `r/`. String `repository` and `tag` values pass through unchanged. |
| HelmfileExtract.GetHelmDep | lib/manager/helmfile-values/extract.ts:41-53 | The record sets `replaceString` to the tag, `versioning` to `docker`, and the template to `{{newValue}}{{#if newDigest}}@{{newDigest}}{{/if}}`. Its other fields are those `getDep` builds from `registry` + `repository` + `:` + `tag` with `false`. |
| HelmfileExtract.ProcessDependency | lib/manager/helmfile-values/extract.ts:61-73 | The result is null exactly for numbers and booleans, so it is never null for a value that passes the image test. A string yields `getDep`'s own record for that string. An object or array yields exactly the `getHelmDep` record of its sanitized form, so `getDep` receives `registry` + `repository` + `:` + `tag`, and the record carries the sanitized tag, the Docker versioning and the replacement template. |
| HelmfileExtract.ImagesDeps | lib/manager/helmfile-values/extract.ts:91-94 | An accepted group yields exactly one record per entry, in key order, and record `i` is built from entry `i`. |
| HelmfileExtract.ExtractDependencies | lib/manager/helmfile-values/extract.ts:75-82 | A section that is not an object, or whose `values` is absent or not an array, contributes nothing. |
| HelmfileExtract.ExtractPackageFile | lib/manager/helmfile-values/extract.ts:102-138 | A parse failure gives null. Otherwise the result is null exactly when the documents yield no records. A non-null result carries all records, in scan order, with the `docker` datasource. |
| HelmfileProperties.MatchedValuesAlwaysBuild | lib/manager/helmfile-values/extract.ts:87-94 | Neither a matched image nor any entry of a matched group makes `processDependency` return null, so no null record is ever pushed. |
| HelmfileProperties.KeyContribution | lib/manager/helmfile-values/extract.ts:85-95 | A single-matching key contributes exactly the one record built from its value. A plural-matching key contributes one record per entry of its value, in key order. Any other key contributes nothing. |
| HelmfileProperties.KeysDepsAppend | lib/manager/helmfile-values/extract.ts:85-96 | Within one `values` entry, records follow key order: the records of `a + b` are those of `a`, then those of `b`. |
| HelmfileProperties.ValuesDepsAppend | lib/manager/helmfile-values/extract.ts:84-97 | Within one section, records follow the order of the `values` array. |
| HelmfileProperties.SectionsDepsAppend | lib/manager/helmfile-values/extract.ts:117-119 | Records follow the order of the sections in a `releases` or `helmfiles` list. |
| HelmfileProperties.DocsDepsAppend | lib/manager/helmfile-values/extract.ts:115-127 | A multi-document stream yields each document's records in stream order. |
| HelmfileProperties.ReleasesBeforeHelmfiles | lib/manager/helmfile-values/extract.ts:115-127 | An example of the scan order, for a document written with `helmfiles` first: all `releases` records still come before all `helmfiles` records, whatever the sections contain. |
| HelmfileProperties.NonImageKeysContributeNothing | lib/manager/helmfile-values/extract.ts:85-96 | Keys ending in neither `image` nor `images` contribute nothing, whatever their values contain. Images nested below the top level are never found. |
| HelmfileProperties.NonObjectEntriesContributeNothing | lib/manager/helmfile-values/extract.ts:84-86 | A `values` entry that is an array, string, number or boolean contributes nothing. |
| HelmfileProperties.EnvironmentsIgnored | lib/manager/helmfile-values/extract.ts:115-127 | Inserting an `environments` entry anywhere in a document leaves its records unchanged. |
| HelmfileProperties.NoImageKeysNoResult | lib/manager/helmfile-values/extract.ts:115-135 | A stream in which no key anywhere ends in `image` or `images` gives null. |
| HelmfileProperties.StructuredImageReference | lib/manager/helmfile-values/extract.ts:26-30 | `{registry: r, repository: p, tag: t}` with string fields and a non-empty `r` passes the image test and sanitizes to (`r/`, `p`, `t`). `getDep` then receives `r/p:t`, the same string the inline form would pass. |
| HelmfileProperties.StructuredImageWithoutRegistry | lib/manager/helmfile-values/extract.ts:26-27 | Without a `registry` entry the registry part is empty, and `getDep` receives `p:t`. |
| HelmfileExamples.NoValuesGivesNull | lib/manager/helmfile-values/extract.spec.ts:13-20 | A release without `values` gives null. |
| HelmfileExamples.ParseFailureGivesNull | lib/manager/helmfile-values/extract.spec.ts:22-28 | A stream js-yaml rejects gives null. |
| HelmfileExamples.ReleaseImage | lib/manager/helmfile-values/extract.spec.ts:30-50 | A structured `image` gives one record, built by `getHelmDep` from `container.registry.com/some/repository:0.0.1`, with the `docker` datasource. |
| HelmfileExamples.InlineImage | lib/manager/helmfile-values/extract.spec.ts:79-96 | An inline `image` string gives exactly `getDep`'s record for that string. |
| HelmfileExamples.InlineMultiImages | lib/manager/helmfile-values/extract.spec.ts:98-118 | An `images` group of two strings gives exactly `getDep`'s records for the two strings, `foo` before `bar`. |
| HelmfileExamples.MultiImages | lib/manager/helmfile-values/extract.spec.ts:52-77 | An `images` group gives both records, `foo` before `bar`, under `releases` and under `helmfiles` alike. |
| HelmfileExamples.NestedMultiImages | lib/manager/helmfile-values/extract.spec.ts:120-145 | On the nested-state document, a `helmfiles` section named by its `path`, the `images` group gives both records, `foo` before `bar`, with the `docker` datasource. |
| HelmfileExamples.RejectedGroupEntry | lib/manager/helmfile-values/extract.ts:87-94 | A `values` entry whose only key is `images` contributes no record when any entry of the group fails the value test. |
| HelmfileExamples.IncompleteGroupGivesNull | lib/manager/helmfile-values/util.ts:59-68 | A group with one entry lacking `tag` yields nothing, so a stream holding only that group gives null. |
| HelmfileExamples.AllSections | lib/manager/helmfile-values/extract.spec.ts:147-185 | `environments` contributes nothing, and the `releases` record precedes the `helmfiles` record although `helmfiles` is written first. |
| HelmfileExamples.MultiDocument | lib/manager/helmfile-values/extract.spec.ts:187-200 | A stream of three documents gives the `another/repository` 0.1.0 record, then the `container.registry.com/yetanother/repository` 1.0.0 record. The `some/repository` image under `environments` is not extracted. |

## Left out

- YAML parsing (`loadAll` with `json: true`) is not modelled. It is an external
  library, so `ExtractPackageFile` takes its outcome as `Option<seq<Value>>`,
  with `None` for a parse error.
- The debug logging on a parse error and on an empty result is left out,
  because it is I/O.
- The body of `getDep` in `lib/manager/dockerfile/extract.ts` is not part of
  this model. It is a parameter, so how it splits `depName` and
  `currentValue`, and its default for an omitted `specifyReplaceString`, stay
  open.
- `PackageDependency` carries only the seven fields this model tracks. Any other field of the shared record is not modelled.
- Non-integer numbers are not modelled. `Num` holds integers and prints them in
  decimal. Floats, their JavaScript printing (`1.0` prints as `1`), and
  integers beyond 2^53 are left out.
- A null document, a null `releases`/`helmfiles` element, or a null `values`
  entry makes the source throw a `TypeError`. Those cases are preconditions
  (`DocsTraversable`, `SectionTraversable`), not modelled outcomes.
- Objects are association lists in `Object.keys` order, and lookup takes the
  first entry for a key. js-yaml never produces duplicate keys. The reordering
  `Object.keys` applies to integer-like keys is not modelled.
- Property access ignores inherited properties. No prototype property is named
  `values`, `releases`, `helmfiles`, `registry`, `repository` or `tag`, except
  `Array.prototype.values`, which is a function, not an array.
- `lib/manager/helmfile-values/index.ts` is left out. It holds a re-export and
  static configuration, with no logic.
- `lib/manager/helmfile-values/types.ts` is mirrored by `HelmfileTypes`. It
  declares types only, with no behaviour.
- `getHelmDep` mutates the record `getDep` returns in place. This is modelled
  as a functional update of that record.
- `lib/util/regex.ts`, which builds the two key patterns, is not part of this
  model. The patterns are modelled with ASCII case folding. An engine with
  Unicode case folding would also match a key ending in a look-alike such as
  `imageſ` (U+017F) against `/images$/i`. That case is not modelled.
- `Value` covers strings, integers, booleans, null, plain objects and arrays.
  js-yaml's default schema also produces `Date` values (an unquoted
  `2021-01-01`) and binary values, which are not modelled. Their `String()`
  form differs from `[object Object]`.
- ToStr: a parsed map with its own `toString` key (for example
  `repository: {toString: x}`) makes `String()` throw a `TypeError` in
  `sanitizeDependency`, because js-yaml never yields a callable. Such a map
  still passes the image test, so `extractPackageFile` throws. The model
  instead coerces every map to `[object Object]` and returns a result. The
  same holds for such a map nested inside an array that is coerced.

## Behaviour of the code worth knowing

- For structured images, the code overrides `replaceString`, `versioning` and
  the template. It does not override `currentValue`, which stays as `getDep`
  computes it.
- Null builder results are not filtered out before aggregation; the code pushes
  whatever `processDependency` returns. They cannot occur, because both
  heuristics only accept strings and objects (`MatchedValuesAlwaysBuild`). In
  the model, `KeyDeps` takes the record out of the `Option`, so the model is
  well-typed only because of this fact.
- The plural heuristic accepts arrays as well as maps, since arrays are
  `typeof 'object'`. Index keys then name the images.
- The walker inspects only the top-level keys of each `values` entry. It does
  not descend into nested values.
- A registry is dropped when it is falsy, not only when it is absent or empty.
  So `0` and `false` are dropped too.
