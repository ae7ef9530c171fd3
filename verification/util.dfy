/**
 The two shape heuristics of lib/manager/helmfile-values/util.ts: whether a
 key/value pair found in a release's in-line `values` looks like one Docker
 image (`image:` with `repository` and `tag`, or a bare string) or like a
 group of them (`images:` whose every entry looks like one image).
 */
module HelmfileUtil {
  import opened JsValues

  /** ASCII lower-casing of one character. */
  function LowerChar(c: char): char {
    if 'A' <= c <= 'Z' then (c as int + 32) as char else c
  }

  function Lower(s: string): string {
    seq(|s|, i requires 0 <= i < |s| => LowerChar(s[i]))
  }

  /**
   `/<suffix>$/i.test(key)` for a lower-case ASCII `suffix`, with ASCII case
   folding: the characters of the key's tail are compared after lower-casing
   `A`-`Z` only. A regular-expression engine with Unicode case folding would
   also accept a few non-ASCII look-alikes (such as `ſ` for `s`); see README.
   */
  predicate EndsWithIgnoringCase(key: string, suffix: string) {
    |suffix| <= |key| && Lower(key[|key| - |suffix|..]) == suffix
  }

  /** `parentKeyRe = /image$/i` */
  predicate ParentKeyMatches(key: string) {
    EndsWithIgnoringCase(key, "image")
  }

  /** `parentKeyReMulti = /images$/i` */
  predicate ParentKeyMultiMatches(key: string) {
    EndsWithIgnoringCase(key, "images")
  }

  /**
   The value test shared by both heuristics: `v && ((typeof v === 'object' &&
   hasKey('repository', v) && hasKey('tag', v)) || typeof v === 'string')`.
   */
  predicate LooksLikeImage(v: Value) {
    Truthy(v) && ((IsObjectType(v) && HasKey("repository", v) && HasKey("tag", v)) || v.Str?)
  }

  /** `matchesHelmfileValuesDockerHeuristic(key, data)` */
  predicate MatchesHeuristic(key: string, data: Value) {
    ParentKeyMatches(key) && LooksLikeImage(data)
  }

  /** `Object.keys(data).every(imageName => <data[imageName] looks like an image>)` */
  predicate EveryLooksLikeImage(es: seq<(string, Value)>) {
    |es| == 0 || (LooksLikeImage(es[0].1) && EveryLooksLikeImage(es[1..]))
  }

  /** `matchesHelmfileValuesDockerHeuristicMulti(key, data)`. Arrays are
      `typeof 'object'` too, so their elements are the entries checked. */
  predicate MatchesHeuristicMulti(key: string, data: Value) {
    ParentKeyMultiMatches(key) && Truthy(data) && IsObjectType(data) && EveryLooksLikeImage(Entries(data))
  }

  /** An object has both image fields, whatever is stored under them. */
  ghost predicate HasImageFields(ps: seq<(string, Value)>) {
    HasEntry(ps, "repository") && HasEntry(ps, "tag")
  }

  /** Exactly non-empty strings, and objects with both a `repository` and a
      `tag` entry, look like an image: no falsy value, number, boolean or array
      ever does. */
  lemma LooksLikeImageIff(v: Value)
    ensures LooksLikeImage(v) <==> (v.Str? && v.text != "") || (v.Obj? && HasImageFields(v.props))
  {
    if v.Obj? {
      LookupFindsEntry(v.props, "repository");
      LookupFindsEntry(v.props, "tag");
    }
  }

  /** The single heuristic: the key must end in `image` (any case), and then it
      accepts every non-empty string and exactly the objects having both image
      fields; every falsy value is rejected. */
  lemma MatchesHeuristicIff(key: string, data: Value)
    ensures MatchesHeuristic(key, data) <==>
              ParentKeyMatches(key) &&
              ((data.Str? && data.text != "") || (data.Obj? && HasImageFields(data.props)))
    ensures !Truthy(data) ==> !MatchesHeuristic(key, data)
  {
    LooksLikeImageIff(data);
  }

  /** Only the presence of `repository` and `tag` matters for an object: two
      objects with the same keys in the same order are judged alike, whatever
      their values. */
  lemma {:induction false} ObjectMatchIgnoresValues(key: string, ps: seq<(string, Value)>, qs: seq<(string, Value)>)
    requires |ps| == |qs|
    requires forall i :: 0 <= i < |ps| ==> ps[i].0 == qs[i].0
    ensures MatchesHeuristic(key, Obj(ps)) == MatchesHeuristic(key, Obj(qs))
  {
    LooksLikeImageIff(Obj(ps));
    LooksLikeImageIff(Obj(qs));
    assert HasEntry(ps, "repository") ==> HasEntry(qs, "repository");
    assert HasEntry(qs, "repository") ==> HasEntry(ps, "repository");
    assert HasEntry(ps, "tag") ==> HasEntry(qs, "tag");
    assert HasEntry(qs, "tag") ==> HasEntry(ps, "tag");
  }

  /** `every` is a conjunction over all entries: one entry that does not look
      like an image rejects the whole group. */
  lemma {:induction false} EveryLooksLikeImageIff(es: seq<(string, Value)>)
    ensures EveryLooksLikeImage(es) <==> forall i :: 0 <= i < |es| ==> LooksLikeImage(es[i].1)
  {
    if |es| > 0 {
      EveryLooksLikeImageIff(es[1..]);
      assert forall i :: 1 <= i < |es| ==> es[1..][i - 1] == es[i];
    }
  }

  /** The plural heuristic is all-or-nothing: the key must end in `images`, the
      value must be an object or array, and every one of its entries must look
      like an image. */
  lemma MatchesHeuristicMultiIff(key: string, data: Value)
    ensures MatchesHeuristicMulti(key, data) <==>
              ParentKeyMultiMatches(key) && (data.Obj? || data.Arr?) &&
              forall i :: 0 <= i < |Entries(data)| ==> LooksLikeImage(Entries(data)[i].1)
    ensures !Truthy(data) ==> !MatchesHeuristicMulti(key, data)
  {
    if data.Obj? || data.Arr? {
      EveryLooksLikeImageIff(Entries(data));
    }
  }

  /** One non-conforming entry spoils an otherwise well-formed group. */
  lemma OneBadEntryRejectsGroup(key: string, ps: seq<(string, Value)>, i: nat)
    requires i < |ps| && !LooksLikeImage(ps[i].1)
    ensures !MatchesHeuristicMulti(key, Obj(ps))
  {
    MatchesHeuristicMultiIff(key, Obj(ps));
  }

  /** `every` over no keys is true: an empty object under an `images` key is
      accepted (and yields no images). */
  lemma EmptyGroupAccepted(key: string)
    requires ParentKeyMultiMatches(key)
    ensures MatchesHeuristicMulti(key, Obj([]))
  {
  }

  /** An array under an `images` key is accepted exactly when each of its
      elements looks like an image. */
  lemma ArrayGroupIff(key: string, xs: seq<Value>)
    ensures MatchesHeuristicMulti(key, Arr(xs)) <==>
              ParentKeyMultiMatches(key) && forall i :: 0 <= i < |xs| ==> LooksLikeImage(xs[i])
  {
    MatchesHeuristicMultiIff(key, Arr(xs));
    assert forall i :: 0 <= i < |xs| ==> Entries(Arr(xs))[i].1 == xs[i];
  }

  /** No key ends both in `image` and in `images`, so at most one heuristic
      applies to a key. */
  lemma ParentKeysDisjoint(key: string)
    ensures !(ParentKeyMatches(key) && ParentKeyMultiMatches(key))
  {
    var n := |key|;
    if ParentKeyMatches(key) {
      assert LowerChar(key[n - 1]) == Lower(key[n - 5..])[4] == 'e';
    }
    if ParentKeyMultiMatches(key) {
      assert LowerChar(key[n - 1]) == Lower(key[n - 6..])[5] == 's';
    }
  }

  /** Consequently a value matched by one heuristic is never matched by the other. */
  lemma HeuristicsDisjoint(key: string, v: Value, w: Value)
    ensures !(MatchesHeuristic(key, v) && MatchesHeuristicMulti(key, w))
  {
    ParentKeysDisjoint(key);
  }

  /** `image`, any-case `dockerImage` and `IMAGE` end in `image`. */
  lemma SingleKeyMatches()
    ensures ParentKeyMatches("image") && ParentKeyMatches("dockerImage") && ParentKeyMatches("IMAGE")
  {
  }

  /** `images`, `imageTag` and `imagePullPolicy` do not end in `image`. */
  lemma SingleKeyMismatches()
    ensures !ParentKeyMatches("images") && !ParentKeyMatches("imageTag") && !ParentKeyMatches("imagePullPolicy")
  {
    assert Lower("mages")[4] == 's';
    assert Lower("geTag")[4] == 'g';
    assert Lower("olicy")[4] == 'y';
  }

  /** `images` and `sidecarImages` end in `images`; `image` is too short. */
  lemma MultiKeyExamples()
    ensures ParentKeyMultiMatches("images") && ParentKeyMultiMatches("sidecarImages")
    ensures !ParentKeyMultiMatches("image")
  {
  }

  /** The keys `Object.keys` reports for arrays and strings are decimal
      numerals, which end in neither `image` nor `images`. */
  lemma IndexKeysNeverMatch(i: nat)
    ensures !ParentKeyMatches(IndexKey(i)) && !ParentKeyMultiMatches(IndexKey(i))
  {
    var k := IndexKey(i);
    NatToDecimalDigits(i);
    var c := k[|k| - 1];
    assert IsDigit(c) && LowerChar(c) == c;
    if |k| >= 5 {
      assert Lower(k[|k| - 5..])[4] == c;
    }
    if |k| >= 6 {
      assert Lower(k[|k| - 6..])[5] == c;
    }
  }
}
