/** The run of src/plugin.ts: `getHeader` (lines 81-169) as a `HeaderRun` object whose
    `meta` record the `Identifier` visitor and `Program.exit` update in place, and the
    `generateBundle` hook (lines 172-184) looping over the output files. The plugin
    options object is shared by every chunk of a bundle, and `Program.exit` deletes the
    override grants from it. Reading package.json and parsing the code are external; the
    package contents are a parameter, and the parser is a function `parse` from code to
    the identifier occurrences its traversal visits (`None` for a syntax error). */
module Plugin {
  import opened Wrappers
  import opened JsString
  import opened Record
  import opened PackageJson
  import opened Metadata
  import opened Scanner
  import opened Serializer

  /** What `getHeader` can throw: the parser's syntax error, or a `TypeError` from the
      rendering chain. */
  datatype Error = SyntaxError | Thrown(error: TypeError)

  /** The `meta` field of the plugin options; its `grant` is deleted in place. */
  class PluginOptions {
    var meta: Option<Record>

    constructor (meta: Option<Record>)
      ensures this.meta == meta
    {
      this.meta := meta;
    }
  }

  /** The overrides are a JavaScript object handed to the plugin factory, so each key
      occurs once in it, as in every resource object inside it. */
  ghost predicate OptionsValid(om: Option<Record>) {
    om.Some? ==> JsonObject(om.value)
  }

  /** package.json is JSON: `userscriptMetadata` and the top level have each key once. */
  ghost predicate PackageValid(pack: Package) {
    JsonObject(UserMetadata(pack)) && DistinctKeys(pack.fields)
  }

  /** `userscriptMetadata.grant` is absent or an array, as its declared type says. */
  predicate GrantIsList(pack: Package) {
    var g := Get(UserMetadata(pack), "grant");
    g.Undef? || g.List?
  }

  /** The items of an array value (nothing for any other value). */
  function GrantList(v: MetaValue): seq<string> {
    if v.List? then v.items else []
  }

  /** `options.meta?.grant?.length` is truthy: a non-empty array or string. */
  predicate LengthTruthy(v: MetaValue) {
    (v.List? && v.items != []) || (v.Str? && v.text != [])
  }

  /** What `grant.concat(v)` appends for an override grant of truthy length. */
  function OverrideItems(v: MetaValue): (r: seq<string>)
    requires LengthTruthy(v)
    ensures r != []
    ensures v.List? ==> r == v.items
  {
    if v.List? then v.items else [v.text]
  }

  /** The grant list after line 111-112: `["none"]` for an empty list. */
  function Seeded(g: seq<string>): seq<string> {
    if g == [] then ["none"] else g
  }

  /** Lines 97, 100, 105: the visitor pushes `ts` onto `meta.grant`. */
  function Push(meta: Record, ts: seq<string>): Record {
    Set(meta, "grant", List(GrantList(Get(meta, "grant")) + ts))
  }

  lemma PushGrant(meta: Record, ts: seq<string>)
    ensures Get(Push(meta, ts), "grant") == List(GrantList(Get(meta, "grant")) + ts)
  {
  }

  /** `meta` after the visitor has seen `occs`, one identifier at a time. */
  function ScanMeta(meta: Record, occs: seq<Occurrence>): Record
    decreases |occs|
  {
    if occs == [] then meta
    else Push(ScanMeta(meta, occs[..|occs| - 1]), Tokens(occs[|occs| - 1]))
  }

  /** The scan appends the traversal's tokens, in visit order, to the grant list it
      started with. */
  lemma {:induction false} ScanGrant(meta: Record, occs: seq<Occurrence>)
    requires Get(meta, "grant").List?
    ensures Get(ScanMeta(meta, occs), "grant") == List(Get(meta, "grant").items + TokensOf(occs))
    decreases |occs|
  {
    var g := Get(meta, "grant").items;
    if occs == [] {
      assert g + [] == g;
    } else {
      var n := |occs| - 1;
      var init := occs[..n];
      var ts := Tokens(occs[n]);
      ScanGrant(meta, init);
      PushGrant(ScanMeta(meta, init), ts);
      assert TokensOf(occs) == TokensOf(init) + ts;
      assert g + TokensOf(init) + ts == g + TokensOf(occs);
    }
  }

  /** The scan changes no other field. */
  lemma {:induction false} ScanOtherKeys(meta: Record, occs: seq<Occurrence>, k: string)
    requires k != "grant"
    ensures Get(ScanMeta(meta, occs), k) == Get(meta, k)
    ensures Has(ScanMeta(meta, occs), k) == Has(meta, k)
    decreases |occs|
  {
    if occs != [] {
      ScanOtherKeys(meta, occs[..|occs| - 1], k);
    }
  }

  /** When `grant` is present the scan adds no key and moves none. */
  lemma {:induction false} ScanKeys(meta: Record, occs: seq<Occurrence>)
    requires Has(meta, "grant")
    ensures Has(ScanMeta(meta, occs), "grant")
    ensures Keys(ScanMeta(meta, occs)) == Keys(meta)
    decreases |occs|
  {
    if occs != [] {
      var prev := ScanMeta(meta, occs[..|occs| - 1]);
      ScanKeys(meta, occs[..|occs| - 1]);
      SetKeys(prev, "grant", List(GrantList(Get(prev, "grant")) + Tokens(occs[|occs| - 1])));
    }
  }

  /** `options.meta` after `Program.exit` (lines 116-119): a grant of truthy length is
      deleted, everything else is kept. */
  function ExitOptions(om: Option<Record>): (r: Option<Record>)
    requires OptionsValid(om)
    ensures OptionsValid(r)
    ensures r.Some? <==> om.Some?
    ensures r.Some? ==> !LengthTruthy(Get(r.value, "grant"))
    ensures r.Some? ==> (Has(r.value, "grant") <==> Has(om.value, "grant") && !LengthTruthy(Get(om.value, "grant")))
    ensures r.Some? ==> forall k :: k != "grant" ==>
      Get(r.value, k) == Get(om.value, k) && Has(r.value, k) == Has(om.value, k)
  {
    match om
    case None => None
    case Some(m) => if LengthTruthy(Get(m, "grant")) then Some(Remove(m, "grant")) else om
  }

  /** Deleting the override grant once is enough: a second exit with the same options
      deletes nothing more. */
  lemma ExitOptionsIdempotent(om: Option<Record>)
    requires OptionsValid(om)
    ensures ExitOptions(ExitOptions(om)) == ExitOptions(om)
  {
  }

  /** Lines 111-112: `"none"` is pushed onto an empty grant list; nothing else changes. */
  function SeedNone(meta: Record): (r: Record)
    ensures Get(meta, "grant").List? ==> Get(r, "grant") == List(Seeded(Get(meta, "grant").items))
    ensures forall k :: k != "grant" ==> Get(r, k) == Get(meta, k) && Has(r, k) == Has(meta, k)
  {
    if Get(meta, "grant") == List([]) then Set(meta, "grant", List(["none"])) else meta
  }

  /** Line 117: an override grant of truthy length is concatenated; nothing else changes. */
  function TakeOverrideGrants(meta: Record, om: Option<Record>): (r: Record)
    ensures om.Some? && LengthTruthy(Get(om.value, "grant")) && Get(meta, "grant").List? ==>
      Get(r, "grant") == List(Get(meta, "grant").items + OverrideItems(Get(om.value, "grant")))
    ensures !(om.Some? && LengthTruthy(Get(om.value, "grant"))) ==> Get(r, "grant") == Get(meta, "grant")
    ensures forall k :: k != "grant" ==> Get(r, k) == Get(meta, k) && Has(r, k) == Has(meta, k)
  {
    if om.Some? && LengthTruthy(Get(om.value, "grant"))
    then Set(meta, "grant", List(GrantList(Get(meta, "grant")) + OverrideItems(Get(om.value, "grant"))))
    else meta
  }

  /** `meta` after `Program.exit` (lines 111-120). */
  function ExitMeta(meta: Record, om: Option<Record>): Record
    requires OptionsValid(om)
  {
    var merged := TakeOverrideGrants(SeedNone(meta), om);
    match ExitOptions(om)
    case None => merged
    case Some(m) => Assign(merged, m)
  }

  /** The grant list after `Program.exit`: `"none"` when the scan found nothing, then the
      override grants of truthy length; an override grant of any other value (an empty
      array included) replaces the list. */
  lemma ExitGrant(meta: Record, om: Option<Record>)
    requires Get(meta, "grant").List? && OptionsValid(om)
    ensures Get(ExitMeta(meta, om), "grant") ==
      if om.Some? && LengthTruthy(Get(om.value, "grant"))
      then List(Seeded(Get(meta, "grant").items) + OverrideItems(Get(om.value, "grant")))
      else if om.Some? && Has(om.value, "grant") then Get(om.value, "grant")
      else List(Seeded(Get(meta, "grant").items))
  {
    var merged := TakeOverrideGrants(SeedNone(meta), om);
    assert Get(merged, "grant") ==
      if om.Some? && LengthTruthy(Get(om.value, "grant"))
      then List(Seeded(Get(meta, "grant").items) + OverrideItems(Get(om.value, "grant")))
      else List(Seeded(Get(meta, "grant").items));
    var om' := ExitOptions(om);
    if om'.Some? {
      AssignAt(merged, om'.value, "grant");
    }
  }

  /** Every other field is replaced by the override of the same name, if there is one,
      and kept otherwise. */
  lemma ExitOtherKeys(meta: Record, om: Option<Record>, k: string)
    requires OptionsValid(om) && k != "grant"
    ensures Get(ExitMeta(meta, om), k) ==
      if om.Some? && Has(om.value, k) then Get(om.value, k) else Get(meta, k)
    ensures Has(ExitMeta(meta, om), k) == (Has(meta, k) || (om.Some? && Has(om.value, k)))
  {
    var merged := TakeOverrideGrants(SeedNone(meta), om);
    assert Get(merged, k) == Get(meta, k) && Has(merged, k) == Has(meta, k);
    var om' := ExitOptions(om);
    if om'.Some? {
      AssignAt(merged, om'.value, k);
    }
  }

  /** Fields keep their places; override keys the record lacks are appended in the
      overrides' order. */
  lemma ExitKeys(meta: Record, om: Option<Record>)
    requires OptionsValid(om) && Has(meta, "grant")
    ensures Keys(ExitMeta(meta, om)) ==
      Keys(meta) + (if om.Some? then NewKeys(Keys(ExitOptions(om).value), Keys(meta)) else [])
  {
    var merged := TakeOverrideGrants(SeedNone(meta), om);
    SetKeys(meta, "grant", List(["none"]));
    assert Keys(SeedNone(meta)) == Keys(meta) && Has(SeedNone(meta), "grant");
    if om.Some? && LengthTruthy(Get(om.value, "grant")) {
      var seeded := SeedNone(meta);
      SetKeys(seeded, "grant", List(GrantList(Get(seeded, "grant")) + OverrideItems(Get(om.value, "grant"))));
    }
    assert Keys(merged) == Keys(meta);
    var om' := ExitOptions(om);
    if om'.Some? {
      AssignKeys(merged, om'.value);
    } else {
      assert Keys(meta) + [] == Keys(meta);
    }
  }

  /** Once a chunk has consumed the override grants, a later chunk that uses the same
      options object gets only `"none"`-seeding, and no override grants. */
  lemma LaterChunkGetsNoOverrideGrants(meta: Record, om: Option<Record>)
    requires Get(meta, "grant").List? && OptionsValid(om)
    requires om.Some? && LengthTruthy(Get(om.value, "grant"))
    ensures Get(ExitMeta(meta, ExitOptions(om)), "grant") == List(Seeded(Get(meta, "grant").items))
  {
    ExitGrant(meta, ExitOptions(om));
  }

  /** The record `Program.exit` renders. */
  function FinalMeta(pack: Package, occs: seq<Occurrence>, om: Option<Record>): Record
    requires GrantIsList(pack) && OptionsValid(om)
  {
    ExitMeta(ScanMeta(MetadataOf(pack), occs), om)
  }

  /** The grants of userscriptMetadata (or none). */
  function UserGrants(pack: Package): seq<string> {
    GrantList(Get(UserMetadata(pack), "grant"))
  }

  /** Without override grants, the grant list handed to the renderer (which sorts and
      dedupes it) is the package's own grants followed by the scanned tokens, or
      `["none"]` when both are empty. */
  lemma FinalGrant(pack: Package, occs: seq<Occurrence>, om: Option<Record>)
    requires GrantIsList(pack) && OptionsValid(om)
    requires om.Some? ==> !Has(om.value, "grant")
    ensures Get(FinalMeta(pack, occs, om), "grant") == List(Seeded(UserGrants(pack) + TokensOf(occs)))
  {
    MetadataGrant(pack);
    ScanGrant(MetadataOf(pack), occs);
    ExitGrant(ScanMeta(MetadataOf(pack), occs), om);
  }

  /** The record `Program.exit` renders has each key once, so `Object.entries` (line
      123) lists every tag once. */
  lemma FinalMetaDistinct(pack: Package, occs: seq<Occurrence>, om: Option<Record>)
    requires PackageValid(pack) && GrantIsList(pack) && OptionsValid(om)
    ensures DistinctKeys(FinalMeta(pack, occs, om))
  {
    var meta := MetadataOf(pack);
    MetadataKeyOrder(pack);
    MetadataGrant(pack);
    ScanKeys(meta, occs);
    var scanned := ScanMeta(meta, occs);
    assert DistinctKeys(scanned);
    var seeded := SeedNone(scanned);
    SetKeys(scanned, "grant", List(["none"]));
    var merged := TakeOverrideGrants(seeded, om);
    if om.Some? && LengthTruthy(Get(om.value, "grant")) {
      SetKeys(seeded, "grant", List(GrantList(Get(seeded, "grant")) + OverrideItems(Get(om.value, "grant"))));
    }
    assert DistinctKeys(merged);
    match ExitOptions(om)
    case None =>
    case Some(m) => AssignDistinct(merged, m);
  }

  /** A header that is produced is the sentinel-framed join of the rendered pairs, and
      the pairs hold under every tag exactly the values that tag's final value expands
      into: `Object.entries` followed by the flattening at line 161. */
  lemma HeaderPairs(order: seq<string>, pack: Package, occs: seq<Occurrence>, om: Option<Record>, k: string)
    requires PackageValid(pack) && GrantIsList(pack) && OptionsValid(om)
    requires HeaderOf(order, pack, Some(occs), om).Success?
    ensures var meta := FinalMeta(pack, occs, om);
      var pairs := ExpandAll(pack, SortByRank(order, meta));
      && pairs.Success?
      && HeaderOf(order, pack, Some(occs), om).value == Wrap(Join(Lines(pairs.value), "\n"))
      && Expand(pack, (k, Get(meta, k))).Success?
      && ValuesFor(k, pairs.value) == Expand(pack, (k, Get(meta, k))).value
  {
    FinalMetaDistinct(pack, occs, om);
    SortedPairs(order, pack, FinalMeta(pack, occs, om), k);
  }

  /** With no grants in package.json, no token found and no override grant, the
      rendered pairs hold exactly one `grant` pair, `none`, and the header shows it as
      the line `// @grant         none`. */
  lemma DefaultGrantHeader(order: seq<string>, pack: Package, occs: seq<Occurrence>, om: Option<Record>, none: string)
    requires none == "none"
    requires PackageValid(pack) && GrantIsList(pack) && OptionsValid(om)
    requires UserGrants(pack) == [] && TokensOf(occs) == []
    requires om.Some? ==> !Has(om.value, "grant")
    requires HeaderOf(order, pack, Some(occs), om).Success?
    ensures var pairs := ExpandAll(pack, SortByRank(order, FinalMeta(pack, occs, om)));
      && pairs.Success?
      && HeaderOf(order, pack, Some(occs), om).value == Wrap(Join(Lines(pairs.value), "\n"))
      && ValuesFor("grant", pairs.value) == [none]
      && (exists i :: 0 <= i < |pairs.value| && pairs.value[i] == ("grant", none)
           && Lines(pairs.value)[i] == "// @grant         none"
           && forall j :: 0 <= j < |pairs.value| && j != i ==> pairs.value[j].0 != "grant")
  {
    var meta := FinalMeta(pack, occs, om);
    FinalGrant(pack, occs, om);
    assert Get(meta, "grant") == List([none]);
    HeaderPairs(order, pack, occs, om, "grant");
    var pairs := ExpandAll(pack, SortByRank(order, meta)).value;
    DefaultGrantLine(pack, none);
    ValuesForSingle("grant", none, pairs);
    var i :| 0 <= i < |pairs| && pairs[i] == ("grant", none)
      && forall j :: 0 <= j < |pairs| && j != i ==> pairs[j].0 != "grant";
    assert Lines(pairs)[i] == "// @grant         none";
  }

  /** The value of `getHeader(code, options)` for the parse result `ast`. */
  function HeaderOf(order: seq<string>, pack: Package, ast: Option<seq<Occurrence>>, om: Option<Record>): (r: Result<string, Error>)
    requires GrantIsList(pack) && OptionsValid(om)
    ensures r == Failure(SyntaxError) <==> ast.None?
    ensures r.Success? ==> StartsWith(r.value, OpenSentinel + "\n") && EndsWith(r.value, "\n" + CloseSentinel)
  {
    match ast
    case None => Failure(SyntaxError)
    case Some(occs) =>
      match HeaderBody(order, pack, FinalMeta(pack, occs, om))
      case Failure(e) => Failure(Thrown(e))
      case Success(body) =>
        WrapShape(body);
        Success(Wrap(body))
  }

  /** `options.meta` after `getHeader`: untouched when parsing fails, which happens
      before the traversal reaches `Program.exit`. */
  function OptionsAfter(ast: Option<seq<Occurrence>>, om: Option<Record>): Option<Record>
    requires OptionsValid(om)
  {
    if ast.None? then om else ExitOptions(om)
  }

  /** One `getHeader` call: the metadata record and the visitor callbacks sharing it. */
  class HeaderRun {
    const pack: Package
    const order: seq<string>
    var meta: Record

    /** `meta.grant` is an array, and `meta` has each key once. */
    ghost predicate Valid()
      reads this
    {
      Get(meta, "grant").List? && DistinctKeys(meta)
    }

    /** Lines 82-83, with the package contents given. */
    constructor (pack: Package, order: seq<string>)
      requires GrantIsList(pack) && PackageValid(pack)
      ensures this.pack == pack && this.order == order
      ensures meta == MetadataOf(pack)
      ensures Valid()
    {
      this.pack := pack;
      this.order := order;
      var m := GetMetadata(pack);
      meta := m;
      MetadataGrant(pack);
      MetadataKeyOrder(pack);
    }

    /** The `Identifier` visitor (lines 89-106). */
    method Identifier(occ: Occurrence)
      requires Valid()
      modifies this
      ensures Valid()
      ensures meta == Push(old(meta), Tokens(occ))
    {
      var grant := Get(meta, "grant").items;
      ghost var member: seq<string> := [];
      if occ.parentIsMember {
        if occ.objectName == Some("GM") {
          member := ["GM." + occ.name];
          grant := grant + ["GM." + occ.name];
        } else if occ.objectName == Some("window") && IsWindowMember(occ.name) {
          member := ["window." + occ.name];
          grant := grant + ["window." + occ.name];
        }
      }
      ghost var bare: seq<string> := [];
      if IsBareGrant(occ.name) {
        bare := [occ.name];
        grant := grant + [occ.name];
      }
      assert Tokens(occ) == member + bare;
      assert grant == Get(meta, "grant").items + (member + bare);
      SetKeys(meta, "grant", List(grant));
      meta := Set(meta, "grant", List(grant));
    }

    /** `Program.exit` (lines 109-163): seeds `"none"`, takes the override grants out of
      the options, merges the remaining overrides and renders the tag lines. */
    method Exit(options: PluginOptions) returns (header: Result<string, TypeError>)
      requires Valid() && OptionsValid(options.meta)
      modifies this, options
      ensures meta == ExitMeta(old(meta), old(options.meta))
      ensures options.meta == ExitOptions(old(options.meta))
      ensures header == HeaderBody(order, pack, meta)
    {
      if Get(meta, "grant").items == [] {
        assert Get(meta, "grant").items + ["none"] == ["none"];
        meta := Set(meta, "grant", List(Get(meta, "grant").items + ["none"]));
      }
      assert meta == SeedNone(old(meta));
      if options.meta.Some? && LengthTruthy(Get(options.meta.value, "grant")) {
        meta := Set(meta, "grant", List(GrantList(Get(meta, "grant")) + OverrideItems(Get(options.meta.value, "grant"))));
        options.meta := Some(Remove(options.meta.value, "grant"));
      }
      assert meta == TakeOverrideGrants(SeedNone(old(meta)), old(options.meta));
      assert options.meta == ExitOptions(old(options.meta));
      if options.meta.Some? {
        meta := Assign(meta, options.meta.value);
      }
      header := HeaderBody(order, pack, meta);
    }
  }

  /** `getHeader(code, options)` (lines 81-169). */
  method GetHeader(code: string, options: PluginOptions, pack: Package, order: seq<string>,
                   parse: string -> Option<seq<Occurrence>>) returns (r: Result<string, Error>)
    requires GrantIsList(pack) && PackageValid(pack) && OptionsValid(options.meta)
    modifies options
    ensures r == HeaderOf(order, pack, parse(code), old(options.meta))
    ensures options.meta == OptionsAfter(parse(code), old(options.meta))
  {
    var run := new HeaderRun(pack, order);
    var ast := parse(code);
    if ast.None? {
      return Failure(SyntaxError);
    }
    var occs := ast.value;
    for i := 0 to |occs|
      invariant run.Valid()
      invariant run.meta == ScanMeta(MetadataOf(pack), occs[..i])
      invariant options.meta == old(options.meta)
    {
      assert occs[..i + 1][..i] == occs[..i];
      run.Identifier(occs[i]);
    }
    assert occs[..|occs|] == occs;
    var body := run.Exit(options);
    match body
    case Failure(e) => r := Failure(Thrown(e));
    case Success(b) => r := Success(Wrap(b));
  }

  /** An entry of the Rollup bundle: only chunks carry code. */
  datatype OutputFile = Chunk(code: string) | Asset

  /** Line 179: the header, a blank line, then the chunk's code. */
  function Prepend(header: string, code: string): string {
    header + "\n\n" + code
  }

  /** Prepending keeps the header's first characters in front and puts the code,
      after a blank line, behind its last ones. */
  lemma PrependFrames(h: string, code: string, p: string, q: string)
    requires StartsWith(h, p) && EndsWith(h, q)
    ensures StartsWith(Prepend(h, code), p)
    ensures EndsWith(Prepend(h, code), q + "\n\n" + code)
  {
    var out := Prepend(h, code);
    var tail := q + "\n\n" + code;
    assert out == h + ("\n\n" + code);
    assert out[..|p|] == h[..|p|];
    assert h == h[..|h| - |q|] + q;
    assert out == h[..|h| - |q|] + tail;
    assert out[|out| - |tail|..] == tail;
  }

  /** A rewritten chunk opens with the first sentinel line and ends with the closing
      sentinel, a blank line and the original code, untouched. */
  lemma PrependedChunk(order: seq<string>, pack: Package, ast: Option<seq<Occurrence>>, om: Option<Record>, code: string)
    requires GrantIsList(pack) && OptionsValid(om)
    requires HeaderOf(order, pack, ast, om).Success?
    ensures var out := Prepend(HeaderOf(order, pack, ast, om).value, code);
      StartsWith(out, OpenSentinel + "\n") && EndsWith(out, "\n" + CloseSentinel + "\n\n" + code)
  {
    PrependFrames(HeaderOf(order, pack, ast, om).value, code, OpenSentinel + "\n", "\n" + CloseSentinel);
  }

  /** The files handled so far, the shared options, and the error that stopped the loop. */
  datatype Bundle = Bundle(out: seq<OutputFile>, optionsMeta: Option<Record>, error: Option<Error>)

  /** What one iteration of the loop at lines 176-181 makes of a file and the options:
      the file as it is left, the options afterwards, the error thrown (if any). */
  function FileStep(order: seq<string>, pack: Package, parse: string -> Option<seq<Occurrence>>,
                    om: Option<Record>, f: OutputFile): (r: (OutputFile, Option<Record>, Option<Error>))
    requires GrantIsList(pack) && OptionsValid(om)
    ensures OptionsValid(r.1)
    ensures r.2.Some? ==> r.0 == f
    ensures f.Asset? ==> r == (f, om, None)
    ensures f.Chunk? ==> r.1 == OptionsAfter(parse(f.code), om)
    ensures f.Chunk? ==> (r.2.None? <==> HeaderOf(order, pack, parse(f.code), om).Success?)
    ensures f.Chunk? && r.2.Some? ==> r.2.value == HeaderOf(order, pack, parse(f.code), om).error
    ensures f.Chunk? && r.2.None? ==> r.0 == Chunk(Prepend(HeaderOf(order, pack, parse(f.code), om).value, f.code))
  {
    match f
    case Asset => (f, om, None)
    case Chunk(code) =>
      var om' := OptionsAfter(parse(code), om);
      match HeaderOf(order, pack, parse(code), om)
      case Failure(e) => (f, om', Some(e))
      case Success(h) => (Chunk(Prepend(h, code)), om', None)
  }

  /** One iteration on the running state; after an error no file is touched. */
  function Step(order: seq<string>, pack: Package, parse: string -> Option<seq<Occurrence>>,
                b: Bundle, f: OutputFile): (r: Bundle)
    requires GrantIsList(pack) && OptionsValid(b.optionsMeta)
    ensures OptionsValid(r.optionsMeta)
    ensures |r.out| == |b.out| + 1
  {
    if b.error.Some? then Bundle(b.out + [f], b.optionsMeta, b.error)
    else
      var r := FileStep(order, pack, parse, b.optionsMeta, f);
      Bundle(b.out + [r.0], r.1, r.2)
  }

  /** `generateBundle` over the files `files`, in order. */
  function RunBundle(order: seq<string>, pack: Package, parse: string -> Option<seq<Occurrence>>,
                     files: seq<OutputFile>, om: Option<Record>): (r: Bundle)
    requires GrantIsList(pack) && OptionsValid(om)
    ensures OptionsValid(r.optionsMeta)
    ensures |r.out| == |files|
    decreases |files|
  {
    if files == [] then Bundle([], om, None)
    else Step(order, pack, parse, RunBundle(order, pack, parse, files[..|files| - 1], om), files[|files| - 1])
  }

  /** After an error a step appends the file untouched. */
  lemma StepAfterError(order: seq<string>, pack: Package, parse: string -> Option<seq<Occurrence>>,
                       b: Bundle, f: OutputFile)
    requires GrantIsList(pack) && OptionsValid(b.optionsMeta) && b.error.Some?
    ensures Step(order, pack, parse, b, f) == Bundle(b.out + [f], b.optionsMeta, b.error)
  {
  }

  /** Once a file has thrown, the remaining files are left as they were and the
      options are not touched again. */
  lemma {:induction false} RunAfterError(order: seq<string>, pack: Package, parse: string -> Option<seq<Occurrence>>,
                                         done: seq<OutputFile>, rest: seq<OutputFile>, om: Option<Record>)
    requires GrantIsList(pack) && OptionsValid(om)
    requires RunBundle(order, pack, parse, done, om).error.Some?
    ensures var b := RunBundle(order, pack, parse, done, om);
      RunBundle(order, pack, parse, done + rest, om) == Bundle(b.out + rest, b.optionsMeta, b.error)
    decreases |rest|
  {
    var b := RunBundle(order, pack, parse, done, om);
    if rest == [] {
      assert done + rest == done && b.out + rest == b.out;
    } else {
      var n := |rest| - 1;
      RunAfterError(order, pack, parse, done, rest[..n], om);
      var all := done + rest;
      assert all[..|all| - 1] == done + rest[..n] && all[|all| - 1] == rest[n];
      StepAfterError(order, pack, parse, RunBundle(order, pack, parse, done + rest[..n], om), rest[n]);
      assert b.out + rest[..n] + [rest[n]] == b.out + rest;
    }
  }

  /** Processing one more file is one more step on the state so far. */
  lemma RunBundleNext(order: seq<string>, pack: Package, parse: string -> Option<seq<Occurrence>>,
                      files: seq<OutputFile>, om: Option<Record>, i: nat)
    requires GrantIsList(pack) && OptionsValid(om) && i < |files|
    requires RunBundle(order, pack, parse, files[..i], om).error.None?
    ensures var b := RunBundle(order, pack, parse, files[..i], om);
      var r := FileStep(order, pack, parse, b.optionsMeta, files[i]);
      RunBundle(order, pack, parse, files[..i + 1], om) == Bundle(b.out + [r.0], r.1, r.2)
  {
    assert files[..i + 1][..i] == files[..i];
  }

  /** Two chunks sharing one options object: the first chunk's `Program.exit` deletes
      the override grant, so the second chunk is handled with the options that remain,
      and its grant list is only the package's grants and its own tokens, or `"none"`.
      The bundle is a parameter pinned by `requires`, so the proof unfolds the loop
      only where it steps through it explicitly. */
  lemma SecondChunkNoOverrideGrants(order: seq<string>, pack: Package, parse: string -> Option<seq<Occurrence>>,
                                    c1: string, c2: string, files: seq<OutputFile>, om: Option<Record>)
    requires GrantIsList(pack) && OptionsValid(om)
    requires files == [Chunk(c1), Chunk(c2)]
    requires parse(c1).Some? && parse(c2).Some?
    requires om.Some? && LengthTruthy(Get(om.value, "grant"))
    ensures RunBundle(order, pack, parse, files[..1], om).optionsMeta == ExitOptions(om)
    ensures RunBundle(order, pack, parse, files[..1], om).error.None? ==>
      var r := FileStep(order, pack, parse, ExitOptions(om), Chunk(c2));
      var b := RunBundle(order, pack, parse, files, om);
      b.out[1] == r.0 && b.optionsMeta == r.1 && b.error == r.2
    ensures Get(FinalMeta(pack, parse(c2).value, ExitOptions(om)), "grant") ==
      List(Seeded(UserGrants(pack) + TokensOf(parse(c2).value)))
  {
    assert files[..1] == [Chunk(c1)] && files[1] == Chunk(c2) && files[..2] == files;
    FirstChunk(order, pack, parse, c1, om);
    if RunBundle(order, pack, parse, files[..1], om).error.None? {
      RunBundleNext(order, pack, parse, files, om, 1);
    }
    FinalGrant(pack, parse(c2).value, ExitOptions(om));
  }

  /** The first chunk's exit leaves the options without the override grant. */
  lemma FirstChunk(order: seq<string>, pack: Package, parse: string -> Option<seq<Occurrence>>,
                   c1: string, om: Option<Record>)
    requires GrantIsList(pack) && OptionsValid(om) && parse(c1).Some?
    ensures RunBundle(order, pack, parse, [Chunk(c1)], om).optionsMeta == ExitOptions(om)
  {
    assert [Chunk(c1)][..0] == [];
  }

  /** Assets are left as they are, whatever happens to the chunks. */
  lemma {:induction false} AssetsUntouched(order: seq<string>, pack: Package, parse: string -> Option<seq<Occurrence>>,
                                           files: seq<OutputFile>, om: Option<Record>)
    requires GrantIsList(pack) && OptionsValid(om)
    ensures var r := RunBundle(order, pack, parse, files, om);
      forall i :: 0 <= i < |files| && files[i].Asset? ==> r.out[i] == files[i]
    decreases |files|
  {
    if files != [] {
      var n := |files| - 1;
      AssetsUntouched(order, pack, parse, files[..n], om);
      var b := RunBundle(order, pack, parse, files[..n], om);
      var r := RunBundle(order, pack, parse, files, om);
      assert r == Step(order, pack, parse, b, files[n]);
      forall i | 0 <= i < |files| && files[i].Asset? ensures r.out[i] == files[i] {
        if i < n {
          assert files[..n][i] == files[i];
          assert r.out[i] == b.out[i];
        }
      }
    }
  }

  /** The body of the loop at lines 177-180 for the file at index `i`. */
  method HandleFile(bundle: array<OutputFile>, i: nat, options: PluginOptions, pack: Package, order: seq<string>,
                    parse: string -> Option<seq<Occurrence>>) returns (err: Option<Error>)
    requires i < bundle.Length
    requires GrantIsList(pack) && PackageValid(pack) && OptionsValid(options.meta)
    modifies bundle, options
    ensures var r := FileStep(order, pack, parse, old(options.meta), old(bundle[i]));
      bundle[i] == r.0 && options.meta == r.1 && err == r.2
    ensures forall j :: 0 <= j < bundle.Length && j != i ==> bundle[j] == old(bundle[j])
  {
    err := None;
    match bundle[i] {
      case Asset =>
      case Chunk(code) =>
        var h := GetHeader(code, options, pack, order, parse);
        if h.Failure? {
          assert FileStep(order, pack, parse, old(options.meta), old(bundle[i])) == (Chunk(code), options.meta, Some(h.error));
          return Some(h.error);
        }
        bundle[i] := Chunk(Prepend(h.value, code));
    }
  }

  /** `generateBundle(_opt, bundle)` (lines 175-182), updating the files in place. */
  method GenerateBundle(bundle: array<OutputFile>, options: PluginOptions, pack: Package, order: seq<string>,
                        parse: string -> Option<seq<Occurrence>>) returns (err: Option<Error>)
    requires GrantIsList(pack) && PackageValid(pack) && OptionsValid(options.meta)
    modifies bundle, options
    ensures var b := RunBundle(order, pack, parse, old(bundle[..]), old(options.meta));
      bundle[..] == b.out && options.meta == b.optionsMeta && err == b.error
  {
    ghost var files := bundle[..];
    ghost var om := options.meta;
    ghost var st := Bundle([], om, None);
    err := None;
    var i := 0;
    while i < bundle.Length && err.None?
      invariant 0 <= i <= bundle.Length
      invariant st == RunBundle(order, pack, parse, files[..i], om)
      invariant |st.out| == i
      invariant forall j :: 0 <= j < i ==> bundle[j] == st.out[j]
      invariant forall j :: i <= j < bundle.Length ==> bundle[j] == files[j]
      invariant options.meta == st.optionsMeta && err == st.error
    {
      RunBundleNext(order, pack, parse, files, om, i);
      ghost var r := FileStep(order, pack, parse, options.meta, files[i]);
      err := HandleFile(bundle, i, options, pack, order, parse);
      st := Bundle(st.out + [r.0], r.1, r.2);
      i := i + 1;
    }
    if i < bundle.Length {
      RunAfterError(order, pack, parse, files[..i], files[i..], om);
      assert files[..i] + files[i..] == files;
      assert bundle[..] == st.out + files[i..];
    } else {
      assert files[..i] == files;
      assert bundle[..] == st.out;
    }
  }
}
