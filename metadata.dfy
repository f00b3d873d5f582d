/** `getMetadata` of src/plugin.ts: the metadata record a run starts from, taken from
    package.json's `userscriptMetadata` and completed with defaults. */
module Metadata {
  import opened JsString
  import opened Record
  import opened PackageJson

  /** The top-level package.json fields copied into the metadata when it lacks them. */
  const TopFields: seq<string> := ["name", "version", "author", "description", "license", "homepage"]

  /** `meta[k] = meta[k] ?? v`: the assignment always happens, so the key exists
      afterwards even when both values are `undefined`. */
  function Default(meta: Record, k: string, v: MetaValue): (r: Record)
    ensures Has(r, k)
    ensures !Get(meta, k).Undef? ==> Get(r, k) == Get(meta, k)
    ensures Get(meta, k).Undef? ==> Get(r, k) == v
    ensures forall k' :: k' != k ==> Get(r, k') == Get(meta, k') && Has(r, k') == Has(meta, k')
  {
    Set(meta, k, if Get(meta, k).Undef? then v else Get(meta, k))
  }

  /** Defaulting each of `fields`, in order, from package.json's top level. */
  function DefaultFields(meta: Record, fields: seq<string>, pack: Package): Record
    decreases |fields|
  {
    if fields == [] then meta
    else
      var last := fields[|fields| - 1];
      Default(DefaultFields(meta, fields[..|fields| - 1], pack), last, Get(pack.fields, last))
  }

  /** The text a template literal `${v}` produces for a value. */
  function TemplateText(v: MetaValue): string {
    match v
    case Undef => "undefined"
    case Bool(b) => if b then "true" else "false"
    case Str(s) => s
    case List(xs) => Join(xs, ",")
    case Res(_) => "[object Object]"
  }

  /** The default `downloadURL` for a repository: its latest release asset named after
      package.json's `main`. */
  function DownloadUrl(repo: string, pack: Package): string {
    repo + "/releases/latest/download/" + TemplateText(pack.main)
  }

  /** `packageJson.userscriptMetadata ?? {}`. */
  function UserMetadata(pack: Package): Record {
    match pack.userscriptMetadata
    case None => []
    case Some(m) => m
  }

  /** The record after the `grant` and top-level defaults (src/plugin.ts:30-37). */
  function BaseMetadata(pack: Package): Record {
    DefaultFields(Default(UserMetadata(pack), "grant", List([])), TopFields, pack)
  }

  /** The record `getMetadata` returns. With a truthy repository neither update URL is
      left `undefined`. */
  function MetadataOf(pack: Package): (r: Record)
    ensures RepoTruthy(GetRepo(pack)) ==> !Get(r, "downloadURL").Undef? && !Get(r, "updateURL").Undef?
  {
    var meta := BaseMetadata(pack);
    var repo := GetRepo(pack);
    if RepoTruthy(repo) then
      var meta := Default(meta, "downloadURL", Str(DownloadUrl(repo.value, pack)));
      Default(meta, "updateURL", Get(meta, "downloadURL"))
    else meta
  }

  /** `getMetadata(packageJson)`, assigning field by field as the source does. */
  method GetMetadata(pack: Package) returns (meta: Record)
    ensures meta == MetadataOf(pack)
  {
    meta := UserMetadata(pack);
    meta := Default(meta, "grant", List([]));
    ghost var start := meta;
    for i := 0 to |TopFields|
      invariant meta == DefaultFields(start, TopFields[..i], pack)
    {
      var e := TopFields[i];
      assert TopFields[..i + 1][..i] == TopFields[..i];
      meta := Default(meta, e, Get(pack.fields, e));
    }
    assert TopFields[..|TopFields|] == TopFields;
    var repo := GetRepo(pack);
    if RepoTruthy(repo) {
      meta := Default(meta, "downloadURL", Str(DownloadUrl(repo.value, pack)));
      meta := Default(meta, "updateURL", Get(meta, "downloadURL"));
    }
  }

  /** `b`'s keys start with `a`'s keys: assignments only ever append keys. */
  ghost predicate KeysExtend(a: Record, b: Record) {
    |a| <= |b| && Keys(b)[..|a|] == Keys(a)
  }

  lemma DefaultExtends(meta: Record, k: string, v: MetaValue)
    ensures KeysExtend(meta, Default(meta, k, v))
    ensures DistinctKeys(meta) ==> DistinctKeys(Default(meta, k, v))
  {
    SetKeys(meta, k, if Get(meta, k).Undef? then v else Get(meta, k));
  }

  lemma {:induction false} DefaultFieldsAt(meta: Record, fields: seq<string>, pack: Package, k: string)
    requires forall i, j :: 0 <= i < j < |fields| ==> fields[i] != fields[j]
    ensures Get(DefaultFields(meta, fields, pack), k) ==
      if k in fields && Get(meta, k).Undef? then Get(pack.fields, k) else Get(meta, k)
    ensures k in fields ==> Has(DefaultFields(meta, fields, pack), k)
    ensures k !in fields ==> Has(DefaultFields(meta, fields, pack), k) == Has(meta, k)
    decreases |fields|
  {
    if fields != [] {
      var n := |fields| - 1;
      var init := fields[..n];
      DefaultFieldsAt(meta, init, pack, k);
      assert k in fields <==> k in init || k == fields[n];
      if k == fields[n] {
        assert k !in init;
      }
    }
  }

  lemma {:induction false} DefaultFieldsKeys(meta: Record, fields: seq<string>, pack: Package)
    ensures KeysExtend(meta, DefaultFields(meta, fields, pack))
    ensures DistinctKeys(meta) ==> DistinctKeys(DefaultFields(meta, fields, pack))
    decreases |fields|
  {
    if fields != [] {
      var n := |fields| - 1;
      var init := fields[..n];
      DefaultFieldsKeys(meta, init, pack);
      var acc := DefaultFields(meta, init, pack);
      DefaultExtends(acc, fields[n], Get(pack.fields, fields[n]));
      KeysExtendTransitive(meta, acc, DefaultFields(meta, fields, pack));
    }
  }

  /** Each defaulted field that was missing is appended, in the order of `fields`. */
  lemma {:induction false} DefaultFieldsKeyOrder(meta: Record, fields: seq<string>, pack: Package)
    requires forall i, j :: 0 <= i < j < |fields| ==> fields[i] != fields[j]
    ensures Keys(DefaultFields(meta, fields, pack)) == Keys(meta) + NewKeys(fields, Keys(meta))
    decreases |fields|
  {
    if fields != [] {
      var n := |fields| - 1;
      var init, last := fields[..n], fields[n];
      DefaultFieldsKeyOrder(meta, init, pack);
      assert last !in init;
      DefaultAfter(DefaultFields(meta, init, pack), meta, init, last, Get(pack.fields, last));
      assert init + [last] == fields;
    }
  }

  /** `Default` appends its key exactly when the key was missing. */
  lemma DefaultKeyOrder(meta: Record, k: string, v: MetaValue)
    ensures Keys(Default(meta, k, v)) == Keys(meta) + NewKeys([k], Keys(meta))
  {
    SetKeys(meta, k, if Get(meta, k).Undef? then v else Get(meta, k));
    HasIsInKeys(meta, k);
    NewKeysOne(k, Keys(meta));
  }

  lemma TopFieldsDistinct()
    ensures forall i, j :: 0 <= i < j < |TopFields| ==> TopFields[i] != TopFields[j]
    ensures "grant" !in TopFields
  {
  }

  lemma BaseMetadataGet(pack: Package, k: string)
    ensures Get(BaseMetadata(pack), k) ==
      if k in TopFields + ["grant"] && Get(UserMetadata(pack), k).Undef?
      then (if k == "grant" then List([]) else Get(pack.fields, k))
      else Get(UserMetadata(pack), k)
  {
    TopFieldsDistinct();
    DefaultFieldsAt(Default(UserMetadata(pack), "grant", List([])), TopFields, pack, k);
  }

  lemma BaseMetadataHas(pack: Package, k: string)
    ensures Has(BaseMetadata(pack), k) == (k in TopFields + ["grant"] || Has(UserMetadata(pack), k))
  {
    TopFieldsDistinct();
    DefaultFieldsAt(Default(UserMetadata(pack), "grant", List([])), TopFields, pack, k);
  }

  /** The keys of `userscriptMetadata`, then `grant` if it was missing, then the
      missing top-level fields in the order of `TopFields`. */
  lemma BaseMetadataKeys(pack: Package)
    ensures KeysExtend(UserMetadata(pack), BaseMetadata(pack))
    ensures DistinctKeys(UserMetadata(pack)) ==> DistinctKeys(BaseMetadata(pack))
    ensures Keys(BaseMetadata(pack)) ==
      Keys(UserMetadata(pack)) + NewKeys(["grant"] + TopFields, Keys(UserMetadata(pack)))
  {
    var u := UserMetadata(pack);
    var g := Default(u, "grant", List([]));
    DefaultExtends(u, "grant", List([]));
    TopFieldsDistinct();
    DefaultFieldsKeys(g, TopFields, pack);
    KeysExtendTransitive(u, g, BaseMetadata(pack));
    DefaultThenFields(u, "grant", List([]), TopFields, pack);
  }

  /** One `Default`, then `DefaultFields` over fields other than its key. */
  lemma DefaultThenFields(u: Record, k: string, v: MetaValue, fields: seq<string>, pack: Package)
    requires forall i, j :: 0 <= i < j < |fields| ==> fields[i] != fields[j]
    requires k !in fields
    ensures Keys(DefaultFields(Default(u, k, v), fields, pack)) == Keys(u) + NewKeys([k] + fields, Keys(u))
  {
    DefaultKeyOrder(u, k, v);
    DefaultFieldsKeyOrder(Default(u, k, v), fields, pack);
    NewKeysThen(Keys(u), [k], fields);
  }

  /** A `Default` of a key outside `base` on a record whose keys are `u`'s followed
      by the new ones of `base` appends that key when it is new. */
  lemma DefaultAfter(b: Record, u: Record, base: seq<string>, k: string, v: MetaValue)
    requires Keys(b) == Keys(u) + NewKeys(base, Keys(u))
    requires k !in base
    ensures Keys(Default(b, k, v)) == Keys(u) + NewKeys(base + [k], Keys(u))
  {
    DefaultKeyOrder(b, k, v);
    NewKeysThen(Keys(u), base, [k]);
  }

  /** The URL defaults touch only `downloadURL` and `updateURL`. */
  lemma MetadataOfBase(pack: Package, k: string)
    requires k != "downloadURL" && k != "updateURL"
    ensures Get(MetadataOf(pack), k) == Get(BaseMetadata(pack), k)
    ensures Has(MetadataOf(pack), k) == Has(BaseMetadata(pack), k)
  {
    var b := BaseMetadata(pack);
    var repo := GetRepo(pack);
    if RepoTruthy(repo) {
      var m3 := Default(b, "downloadURL", Str(DownloadUrl(repo.value, pack)));
      assert Get(m3, k) == Get(b, k) && Has(m3, k) == Has(b, k);
      var m4 := Default(m3, "updateURL", Get(m3, "downloadURL"));
      assert m4 == MetadataOf(pack);
      assert Get(m4, k) == Get(m3, k) && Has(m4, k) == Has(m3, k);
    }
  }

  /** A top-level field already set in `userscriptMetadata` is kept; a missing one is
      copied from package.json (and exists afterwards even if that is `undefined`). */
  lemma MetadataTopFields(pack: Package, f: string)
    requires f in TopFields
    ensures Has(MetadataOf(pack), f)
    ensures Get(MetadataOf(pack), f) ==
      if Get(UserMetadata(pack), f).Undef? then Get(pack.fields, f) else Get(UserMetadata(pack), f)
  {
    assert f != "downloadURL" && f != "updateURL";
    MetadataOfBase(pack, f);
    BaseMetadataGet(pack, f);
    BaseMetadataHas(pack, f);
  }

  /** `grant` becomes `[]` only when it was missing. */
  lemma MetadataGrant(pack: Package)
    ensures Has(MetadataOf(pack), "grant")
    ensures Get(MetadataOf(pack), "grant") ==
      if Get(UserMetadata(pack), "grant").Undef? then List([]) else Get(UserMetadata(pack), "grant")
  {
    MetadataOfBase(pack, "grant");
    BaseMetadataGet(pack, "grant");
    BaseMetadataHas(pack, "grant");
  }

  lemma BaseMetadataUrls(pack: Package)
    ensures Get(BaseMetadata(pack), "downloadURL") == Get(UserMetadata(pack), "downloadURL")
    ensures Get(BaseMetadata(pack), "updateURL") == Get(UserMetadata(pack), "updateURL")
  {
    assert "downloadURL" !in TopFields + ["grant"] && "updateURL" !in TopFields + ["grant"];
    BaseMetadataGet(pack, "downloadURL");
    BaseMetadataGet(pack, "updateURL");
  }

  /** With a truthy repository URL, `downloadURL` defaults to the latest release asset
      and `updateURL` to the resulting `downloadURL`; set values are kept. */
  lemma MetadataUrlsDefaulted(pack: Package)
    requires RepoTruthy(GetRepo(pack))
    ensures var u, m := UserMetadata(pack), MetadataOf(pack);
      && Get(m, "downloadURL") == (if Get(u, "downloadURL").Undef?
                                    then Str(DownloadUrl(GetRepo(pack).value, pack))
                                    else Get(u, "downloadURL"))
      && Get(m, "updateURL") == (if Get(u, "updateURL").Undef? then Get(m, "downloadURL")
                                 else Get(u, "updateURL"))
  {
    var b, repo := BaseMetadata(pack), GetRepo(pack);
    BaseMetadataUrls(pack);
    var m3 := Default(b, "downloadURL", Str(DownloadUrl(repo.value, pack)));
    var m4 := Default(m3, "updateURL", Get(m3, "downloadURL"));
    assert m4 == MetadataOf(pack);
    assert Get(m3, "updateURL") == Get(b, "updateURL");
    assert Get(m4, "downloadURL") == Get(m3, "downloadURL");
  }

  /** Without a truthy repository URL neither URL is defaulted. */
  lemma MetadataUrlsKept(pack: Package)
    requires !RepoTruthy(GetRepo(pack))
    ensures Get(MetadataOf(pack), "downloadURL") == Get(UserMetadata(pack), "downloadURL")
    ensures Get(MetadataOf(pack), "updateURL") == Get(UserMetadata(pack), "updateURL")
  {
    BaseMetadataUrls(pack);
  }

  lemma KeysExtendTransitive(a: Record, b: Record, c: Record)
    requires KeysExtend(a, b) && KeysExtend(b, c)
    ensures KeysExtend(a, c)
  {
    assert Keys(c)[..|a|] == Keys(c)[..|b|][..|a|];
  }

  /** Every other field keeps its value. */
  lemma MetadataOtherFields(pack: Package, k: string)
    requires k !in TopFields && k !in ["grant", "downloadURL", "updateURL"]
    ensures Get(MetadataOf(pack), k) == Get(UserMetadata(pack), k)
    ensures Has(MetadataOf(pack), k) == Has(UserMetadata(pack), k)
  {
    MetadataOfBase(pack, k);
    BaseMetadataGet(pack, k);
    BaseMetadataHas(pack, k);
  }

  /** The keys of `userscriptMetadata` keep their order (new keys are appended) and
      stay distinct. */
  lemma MetadataKeyOrder(pack: Package)
    ensures KeysExtend(UserMetadata(pack), MetadataOf(pack))
    ensures DistinctKeys(UserMetadata(pack)) ==> DistinctKeys(MetadataOf(pack))
    ensures Keys(MetadataOf(pack)) == Keys(UserMetadata(pack)) + NewKeys(
      ["grant"] + TopFields + (if RepoTruthy(GetRepo(pack)) then ["downloadURL", "updateURL"] else []),
      Keys(UserMetadata(pack)))
  {
    BaseMetadataKeys(pack);
    var u, b := UserMetadata(pack), BaseMetadata(pack);
    var repo := GetRepo(pack);
    if RepoTruthy(repo) {
      MetadataUrlKeys(pack);
      var m3 := Default(b, "downloadURL", Str(DownloadUrl(repo.value, pack)));
      DefaultExtends(b, "downloadURL", Str(DownloadUrl(repo.value, pack)));
      DefaultExtends(m3, "updateURL", Get(m3, "downloadURL"));
      var m4 := Default(m3, "updateURL", Get(m3, "downloadURL"));
      KeysExtendTransitive(b, m3, m4);
      KeysExtendTransitive(u, b, m4);
    } else {
      assert ["grant"] + TopFields + [] == ["grant"] + TopFields;
    }
  }

  /** With a truthy repository URL, `downloadURL` and then `updateURL` follow the
      keys of `BaseMetadata` when they were missing. */
  lemma MetadataUrlKeys(pack: Package)
    requires RepoTruthy(GetRepo(pack))
    ensures Keys(MetadataOf(pack)) == Keys(UserMetadata(pack)) + NewKeys(
      ["grant"] + TopFields + ["downloadURL", "updateURL"], Keys(UserMetadata(pack)))
  {
    BaseMetadataKeys(pack);
    UrlKeysFresh();
    var b, repo := BaseMetadata(pack), GetRepo(pack);
    TwoDefaultsKeys(b, UserMetadata(pack), ["grant"] + TopFields, "downloadURL", "updateURL",
      Str(DownloadUrl(repo.value, pack)));
  }

  lemma UrlKeysFresh()
    ensures "downloadURL" !in ["grant"] + TopFields
    ensures "updateURL" !in ["grant"] + TopFields + ["downloadURL"]
  {
  }

  /** The two URL defaults of `MetadataOf`, over any keys. */
  lemma TwoDefaultsKeys(b: Record, u: Record, base: seq<string>, d: string, up: string, v: MetaValue)
    requires Keys(b) == Keys(u) + NewKeys(base, Keys(u))
    requires d !in base && up !in base + [d]
    ensures var m := Default(b, d, v);
      Keys(Default(m, up, Get(m, d))) == Keys(u) + NewKeys(base + [d, up], Keys(u))
  {
    var m := Default(b, d, v);
    DefaultAfter(b, u, base, d, v);
    DefaultAfter(m, u, base + [d], up, Get(m, d));
    assert base + [d] + [up] == base + [d, up];
  }
}
