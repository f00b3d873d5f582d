/** The `Identifier` visitor of src/plugin.ts (lines 89-106). The parser and the tree
    walk are external: the walk is modelled by the sequence of identifier occurrences it
    visits, each with its name, whether its parent is a `MemberExpression`, and the
    name of that member expression's object (`None` when the object is not a plain
    identifier). Only the parent's type is checked, not whether the identifier is the
    property or the object. */
module Scanner {
  import opened Wrappers
  import opened JsString

  datatype Occurrence = Occurrence(name: string, parentIsMember: bool, objectName: Option<string>)

  /** `/^(close|focus|onurlchange)$/`. */
  predicate IsWindowMember(n: string) {
    n == "close" || n == "focus" || n == "onurlchange"
  }

  /** The characters a regular-expression `.` does not match. */
  predicate IsLineTerminator(c: char) {
    c == '\n' || c == '\r' || c == '\U{2028}' || c == '\U{2029}'
  }

  /** `/^GM_.+$/`. */
  predicate IsGmFunction(n: string) {
    |n| > 3 && n[..3] == "GM_" && forall i :: 3 <= i < |n| ==> !IsLineTerminator(n[i])
  }

  /** `name == "unsafeWindow" || name.match(/^GM_.+$/)`. */
  predicate IsBareGrant(n: string) {
    n == "unsafeWindow" || IsGmFunction(n)
  }

  /** The shapes of grant token the scanner can produce. */
  predicate IsGrantToken(t: string) {
    StartsWith(t, "GM.") || t in ["window.close", "window.focus", "window.onurlchange"] || IsBareGrant(t)
  }

  /** The tokens the visitor pushes onto `meta.grant` for one identifier, in push order:
      first the member-expression token (lines 93-101), then the bare one (lines 104-105). */
  function Tokens(occ: Occurrence): seq<string> {
    var n := occ.name;
    var member :=
      if occ.parentIsMember && occ.objectName == Some("GM") then ["GM." + n]
      else if occ.parentIsMember && occ.objectName == Some("window") && IsWindowMember(n) then ["window." + n]
      else [];
    var bare := if IsBareGrant(n) then [n] else [];
    member + bare
  }

  /** Whether the member-expression rule (lines 93-101) pushes a token. */
  predicate MemberRuleFires(occ: Occurrence) {
    occ.parentIsMember &&
    (occ.objectName == Some("GM") || (occ.objectName == Some("window") && IsWindowMember(occ.name)))
  }

  /** An identifier yields one token per rule that fires, each of a grant-token shape:
      `GM.<name>` exactly when it sits in a member expression on `GM`, `window.<name>`
      exactly for an allowed member of `window`, and the bare name exactly for
      `unsafeWindow` and `GM_` functions. No other token is produced, and when both rules
      fire the member token is pushed first. */
  lemma TokensSpec(occ: Occurrence)
    ensures var ts := Tokens(occ);
      && |ts| == (if MemberRuleFires(occ) then 1 else 0) + (if IsBareGrant(occ.name) then 1 else 0)
      && |ts| <= 2
      && (forall t :: t in ts ==> t == "GM." + occ.name || t == "window." + occ.name || t == occ.name)
      && (|ts| == 2 ==> ts[1] == occ.name && ts[0] != occ.name)
      && (forall t :: t in ts ==> IsGrantToken(t))
      && (("GM." + occ.name in ts) <==> occ.parentIsMember && occ.objectName == Some("GM"))
      && (("window." + occ.name in ts) <==>
           occ.parentIsMember && occ.objectName == Some("window") && IsWindowMember(occ.name))
      && ((occ.name in ts) <==> IsBareGrant(occ.name))
  {
    var n := occ.name;
    assert ("GM." + n)[..3] == "GM." && ("window." + n)[0] == 'w';
    assert IsWindowMember(n) ==> "window." + n in ["window.close", "window.focus", "window.onurlchange"] by {
      if n == "close" { assert "window." + n == "window.close"; }
      if n == "focus" { assert "window." + n == "window.focus"; }
      if n == "onurlchange" { assert "window." + n == "window.onurlchange"; }
    }
    assert |"GM." + n| != |n| && |"window." + n| != |n|;
  }

  /** The tokens of a whole traversal, in visit order. */
  function TokensOf(occs: seq<Occurrence>): seq<string>
    decreases |occs|
  {
    if occs == [] then [] else TokensOf(occs[..|occs| - 1]) + Tokens(occs[|occs| - 1])
  }

  /** A traversal of one identifier pushes that identifier's tokens. */
  lemma TokensOfOne(o: Occurrence)
    ensures TokensOf([o]) == Tokens(o)
  {
    assert [o][..0] == [];
  }

  /** Visiting one traversal after another pushes the first's tokens, then the second's. */
  lemma {:induction false} TokensOfAppend(a: seq<Occurrence>, b: seq<Occurrence>)
    ensures TokensOf(a + b) == TokensOf(a) + TokensOf(b)
    decreases |b|
  {
    if b != [] {
      var n := |b| - 1;
      assert (a + b)[..|a + b| - 1] == a + b[..n];
      TokensOfAppend(a, b[..n]);
    } else {
      assert a + b == a;
    }
  }

  /** Every token a traversal emits has one of the grant-token shapes, and each
      identifier contributes at most two. */
  lemma {:induction false} TokensOfShape(occs: seq<Occurrence>)
    ensures forall t :: t in TokensOf(occs) ==> IsGrantToken(t)
    ensures |TokensOf(occs)| <= 2 * |occs|
    decreases |occs|
  {
    if occs != [] {
      TokensOfShape(occs[..|occs| - 1]);
      TokensSpec(occs[|occs| - 1]);
    }
  }

  /** The object identifier of `GM.x` has the member expression as parent too, so it
      yields the token `GM.GM`. */
  lemma GmObjectYieldsGmGm()
    ensures Tokens(Occurrence("GM", true, Some("GM"))) == ["GM.GM"]
  {
    assert !IsBareGrant("GM");
    assert "GM." + "GM" == "GM.GM";
  }

  /** `window.alert` is outside the allow-list and yields no token. The name is a
      parameter fixed by the `requires`, so that its characters are spelled out only
      where the proof needs them. */
  lemma WindowAlertIgnored(n: string)
    requires n == "alert"
    ensures Tokens(Occurrence(n, true, Some("window"))) == []
  {
    assert n[0] == 'a' && |n| == 5;
    assert n[..3][0] == 'a';
    assert !IsWindowMember(n) && !IsBareGrant(n);
  }
}
