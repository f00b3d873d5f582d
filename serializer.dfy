/** The rendering chain of `Program.exit` in src/plugin.ts (lines 123-163) and the
    sentinel wrapping of `getHeader` (line 168): the entries of the finished metadata
    record are sorted by their rank in `META_ORDER`, each is expanded into zero or more
    tag lines according to the type of its value, and the lines are padded, trimmed,
    joined and wrapped. `META_ORDER` is a parameter, `order`. */
module Serializer {
  import opened Wrappers
  import opened JsString
  import opened ArrayExtension
  import opened Record
  import opened PackageJson

  /** The `TypeError` thrown when a value lacks the array method the chain calls
      (`sort` at line 157, `map` at line 152). */
  datatype TypeError = NotAFunction(key: string, member: string)

  /** `META_ORDER.indexOf(k)`: -1 for a key the order does not list. */
  function Rank(order: seq<string>, k: string): (r: int)
    ensures -1 <= r < |order|
    ensures r == -1 <==> k !in order
  {
    if order == [] then -1
    else if order[0] == k then 0
    else
      var r := Rank(order[1..], k);
      assert r == -1 ==> k !in order by {
        if r == -1 { assert order == [order[0]] + order[1..]; }
      }
      if r == -1 then -1 else r + 1
  }

  /** A known key ranks at the first index the order lists it at. */
  lemma {:induction false} RankIsFirstIndex(order: seq<string>, k: string)
    requires k in order
    ensures 0 <= Rank(order, k) && order[Rank(order, k)] == k
    ensures forall j :: 0 <= j < Rank(order, k) ==> order[j] != k
  {
    if order[0] != k {
      assert k in order[1..];
      RankIsFirstIndex(order[1..], k);
    }
  }

  ghost predicate SortedByRank(order: seq<string>, s: Record) {
    forall i, j :: 0 <= i < j < |s| ==> Rank(order, s[i].0) <= Rank(order, s[j].0)
  }

  /** Places `e` before the first entry whose rank is not smaller than its own. */
  function InsertByRank(order: seq<string>, e: Entry, s: Record): (r: Record)
    ensures multiset(r) == multiset(s) + multiset{e}
  {
    if s == [] || Rank(order, e.0) <= Rank(order, s[0].0) then [e] + s
    else
      assert s == [s[0]] + s[1..];
      [s[0]] + InsertByRank(order, e, s[1..])
  }

  lemma {:induction false} InsertByRankElems(order: seq<string>, e: Entry, s: Record, b: int)
    requires b <= Rank(order, e.0)
    requires forall i :: 0 <= i < |s| ==> b <= Rank(order, s[i].0)
    ensures forall i :: 0 <= i < |InsertByRank(order, e, s)| ==> b <= Rank(order, InsertByRank(order, e, s)[i].0)
    decreases |s|
  {
    var r := InsertByRank(order, e, s);
    if s != [] && Rank(order, e.0) > Rank(order, s[0].0) {
      var rest := InsertByRank(order, e, s[1..]);
      assert r == [s[0]] + rest;
      InsertByRankElems(order, e, s[1..], b);
      forall i | 0 <= i < |r| ensures b <= Rank(order, r[i].0) {
        if i > 0 { assert r[i] == rest[i - 1]; }
      }
    } else {
      assert r == [e] + s;
      forall i | 0 <= i < |r| ensures b <= Rank(order, r[i].0) {
        if i > 0 { assert r[i] == s[i - 1]; }
      }
    }
  }

  lemma ConsSortedByRank(order: seq<string>, x: Entry, s: Record)
    requires SortedByRank(order, s)
    requires forall i :: 0 <= i < |s| ==> Rank(order, x.0) <= Rank(order, s[i].0)
    ensures SortedByRank(order, [x] + s)
  {
    var r := [x] + s;
    forall i, j | 0 <= i < j < |r| ensures Rank(order, r[i].0) <= Rank(order, r[j].0) {
      assert r[j] == s[j - 1];
      if i > 0 { assert r[i] == s[i - 1]; }
    }
  }

  lemma {:induction false} InsertByRankSorted(order: seq<string>, e: Entry, s: Record)
    requires SortedByRank(order, s)
    ensures SortedByRank(order, InsertByRank(order, e, s))
    decreases |s|
  {
    if s == [] || Rank(order, e.0) <= Rank(order, s[0].0) {
      assert forall i :: 0 <= i < |s| ==> Rank(order, e.0) <= Rank(order, s[i].0) by {
        assert s != [] ==> forall i :: 0 < i < |s| ==> Rank(order, s[0].0) <= Rank(order, s[i].0);
      }
      ConsSortedByRank(order, e, s);
    } else {
      var rest := InsertByRank(order, e, s[1..]);
      InsertByRankSorted(order, e, s[1..]);
      InsertByRankElems(order, e, s[1..], Rank(order, s[0].0));
      ConsSortedByRank(order, s[0], rest);
    }
  }

  /** `entries.sort((a, b) => META_ORDER.indexOf(a[0]) - META_ORDER.indexOf(b[0]))`, a
      stable sort. */
  function SortByRank(order: seq<string>, s: Record): (r: Record)
    ensures multiset(r) == multiset(s)
    ensures SortedByRank(order, r)
  {
    if s == [] then []
    else
      assert s == [s[0]] + s[1..];
      InsertByRankSorted(order, s[0], SortByRank(order, s[1..]));
      InsertByRank(order, s[0], SortByRank(order, s[1..]))
  }

  /** An entry in front of a record that lacks its key keeps the keys distinct. */
  lemma ConsDistinct(x: Entry, r: Record)
    requires DistinctKeys(r) && forall y :: y in r ==> y.0 != x.0
    ensures DistinctKeys([x] + r)
  {
    var s := [x] + r;
    forall i, j | 0 <= i < j < |s| ensures s[i].0 != s[j].0 {
      assert s[j] == r[j - 1] && s[j] in r;
      if i > 0 { assert s[i] == r[i - 1]; }
    }
  }

  /** Inserting an entry whose key is new keeps the keys distinct, and every key reads
      as it does with the entry put in front. */
  lemma {:induction false} InsertByRankDistinct(order: seq<string>, e: Entry, s: Record)
    requires DistinctKeys(s) && forall x :: x in s ==> x.0 != e.0
    ensures DistinctKeys(InsertByRank(order, e, s))
    ensures forall k :: Get(InsertByRank(order, e, s), k) == Get([e] + s, k)
    decreases |s|
  {
    if s == [] || Rank(order, e.0) <= Rank(order, s[0].0) {
      ConsDistinct(e, s);
    } else {
      var head, tail := s[0], s[1..];
      assert s == [head] + tail;
      InsertByRankDistinct(order, e, tail);
      var rest := InsertByRank(order, e, tail);
      forall x | x in rest ensures x.0 != head.0 {
        assert x in multiset(rest);
        assert x == e || x in tail;
      }
      ConsDistinct(head, rest);
      forall k ensures Get([head] + rest, k) == Get([e] + s, k) {
        GetCons(head, rest, k);
        GetCons(e, tail, k);
        GetCons(e, s, k);
        GetCons(head, tail, k);
      }
    }
  }

  /** The rank sort keeps the keys distinct and every key's value. */
  lemma {:induction false} SortByRankDistinct(order: seq<string>, s: Record)
    requires DistinctKeys(s)
    ensures DistinctKeys(SortByRank(order, s))
    ensures forall k :: Get(SortByRank(order, s), k) == Get(s, k)
    decreases |s|
  {
    if s != [] {
      var head, tail := s[0], s[1..];
      assert s == [head] + tail;
      SortByRankDistinct(order, tail);
      var sorted := SortByRank(order, tail);
      forall x | x in sorted ensures x.0 != head.0 {
        assert x in multiset(sorted);
        var j :| 0 <= j < |tail| && tail[j] == x;
        assert s[j + 1] == x;
      }
      InsertByRankDistinct(order, head, sorted);
      forall k ensures Get(SortByRank(order, s), k) == Get(s, k) {
        GetCons(head, sorted, k);
        GetCons(head, tail, k);
      }
    }
  }

  /** The entries of rank `v`, in order. */
  function WithRank(order: seq<string>, s: Record, v: int): Record {
    if s == [] then []
    else (if Rank(order, s[0].0) == v then [s[0]] else []) + WithRank(order, s[1..], v)
  }

  lemma {:induction false} InsertWithRank(order: seq<string>, e: Entry, s: Record, v: int)
    ensures WithRank(order, InsertByRank(order, e, s), v) ==
      (if Rank(order, e.0) == v then [e] else []) + WithRank(order, s, v)
    decreases |s|
  {
    if s == [] || Rank(order, e.0) <= Rank(order, s[0].0) {
      assert ([e] + s)[1..] == s;
    } else {
      InsertWithRank(order, e, s[1..], v);
      var rest := InsertByRank(order, e, s[1..]);
      assert ([s[0]] + rest)[1..] == rest;
    }
  }

  /** The sort is stable: entries of equal rank keep their relative order. */
  lemma {:induction false} SortByRankStable(order: seq<string>, s: Record, v: int)
    ensures WithRank(order, SortByRank(order, s), v) == WithRank(order, s, v)
    decreases |s|
  {
    if s != [] {
      SortByRankStable(order, s[1..], v);
      InsertWithRank(order, s[0], SortByRank(order, s[1..]), v);
    }
  }

  /** Unknown keys rank -1: they come before every known key and keep their insertion
      order. */
  lemma UnknownKeysFirst(order: seq<string>, s: Record)
    ensures var r := SortByRank(order, s);
      && (forall i, j :: 0 <= i < j < |r| && r[i].0 in order ==> r[j].0 in order)
      && WithRank(order, r, -1) == WithRank(order, s, -1)
  {
    SortByRankStable(order, s, -1);
  }

  lemma SortDedupeMember(xs: seq<string>, x: string)
    ensures x in Values(Dedupe(Lift(Sort(xs)))) <==> x in xs
  {
    var sorted := Sort(xs);
    assert x in sorted <==> x in multiset(sorted);
    assert x in xs <==> x in multiset(xs);
    assert Some(x) in Lift(sorted) <==> x in sorted;
  }

  /** `.sort().dedupe()` on a string array (lines 157-158). */
  function SortDedupe(xs: seq<string>): (r: seq<string>)
    ensures StrictlyAscending(r)
    ensures forall x :: x in r <==> x in xs
  {
    DedupeSorted(Sort(xs));
    forall x ensures x in Values(Dedupe(Lift(Sort(xs)))) <==> x in xs {
      SortDedupeMember(xs, x);
    }
    Values(Dedupe(Lift(Sort(xs))))
  }

  lemma AscendingMin(a: seq<string>, x: string)
    requires StrictlyAscending(a) && x in a
    ensures LessEq(a[0], x)
  {
  }

  /** Two strictly ascending arrays with the same elements are the same array. */
  lemma {:induction false} StrictlyAscendingUnique(a: seq<string>, b: seq<string>)
    requires StrictlyAscending(a) && StrictlyAscending(b)
    requires forall x :: x in a <==> x in b
    ensures a == b
    decreases |a|
  {
    assert a != [] ==> a[0] in b;
    assert b != [] ==> b[0] in a;
    if a != [] && b != [] {
      AscendingMin(a, b[0]);
      AscendingMin(b, a[0]);
      LessEqAntisymmetric(a[0], b[0]);
      forall x ensures x in a[1..] <==> x in b[1..] {
        if x in a[1..] {
          var i :| 1 <= i < |a| && a[i] == x;
          assert Less(a[0], x);
          LessAsymmetric(a[0], x);
          assert x in b;
          var j :| 0 <= j < |b| && b[j] == x;
          assert b[1..][j - 1] == x;
        }
        if x in b[1..] {
          var i :| 1 <= i < |b| && b[i] == x;
          assert Less(b[0], x);
          LessAsymmetric(b[0], x);
          assert x in a;
          var j :| 0 <= j < |a| && a[j] == x;
          assert a[1..][j - 1] == x;
        }
      }
      StrictlyAscendingUnique(a[1..], b[1..]);
      assert a == [a[0]] + a[1..] && b == [b[0]] + b[1..];
    }
  }

  /** The number a string of decimal digits denotes. */
  function DecimalValue(s: string): nat
    requires forall i :: 0 <= i < |s| ==> '0' <= s[i] <= '9'
  {
    if s == [] then 0 else DecimalValue(s[..|s| - 1]) * 10 + (s[|s| - 1] - '0') as nat
  }

  /** Decimal text of an array index, as `Object.entries` gives it: digits only, no
      leading zero, denoting `n`. */
  function IndexText(n: nat): (t: string)
    ensures t != [] && (t[0] == '0' ==> t == "0")
    ensures forall i :: 0 <= i < |t| ==> '0' <= t[i] <= '9'
    ensures DecimalValue(t) == n
    decreases n
  {
    var digit := ['0' + (n % 10) as char];
    if n < 10 then digit else IndexText(n / 10) + digit
  }

  /** `Object.entries(v)` for a `resource` value: an object's own pairs, or an array's
      indices and elements. */
  function EntriesOf(v: MetaValue): seq<(string, string)>
    requires v.List? || v.Res?
  {
    match v
    case List(xs) => seq(|xs|, i requires 0 <= i < |xs| => (IndexText(i), xs[i]))
    case Res(ps) => ps
  }

  /** Line 143-146: each resource item becomes `"<name> <resolved url>"`. */
  function ResourceLines(pack: Package, ps: seq<(string, string)>): (r: seq<string>)
    ensures |r| == |ps|
    ensures forall i :: 0 <= i < |ps| ==> r[i] == ps[i].0 + " " + GetActualUrl(ps[i].1, pack)
  {
    seq(|ps|, i requires 0 <= i < |ps| => ps[i].0 + " " + GetActualUrl(ps[i].1, pack))
  }

  /** Line 152: each require item is resolved against the repository. */
  function ResolveAll(pack: Package, xs: seq<string>): (r: seq<string>)
    ensures |r| == |xs|
    ensures forall i :: 0 <= i < |xs| ==> r[i] == GetActualUrl(xs[i], pack)
  {
    seq(|xs|, i requires 0 <= i < |xs| => GetActualUrl(xs[i], pack))
  }

  /** What `tag_entry[1]` holds when line 156 is reached, or the error on the way. */
  function ListItems(pack: Package, e: Entry): Result<seq<string>, TypeError>
    requires e.1.List? || e.1.Res?
  {
    var v := if e.0 == "resource" then List(ResourceLines(pack, EntriesOf(e.1))) else e.1;
    if e.0 == "require" then
      if v.List? then Success(ResolveAll(pack, v.items)) else Failure(NotAFunction(e.0, "map"))
    else if v.List? then Success(v.items)
    else Failure(NotAFunction(e.0, "sort"))
  }

  lemma ResolveAllMembers(pack: Package, xs: seq<string>)
    ensures forall x :: x in ResolveAll(pack, xs) <==> exists u :: u in xs && x == GetActualUrl(u, pack)
  {
    var r := ResolveAll(pack, xs);
    forall x | x in r ensures exists u :: u in xs && x == GetActualUrl(u, pack) {
      var i :| 0 <= i < |r| && r[i] == x;
      assert xs[i] in xs;
    }
  }

  lemma ResourceLinesMembers(pack: Package, ps: seq<(string, string)>)
    ensures forall x :: x in ResourceLines(pack, ps) <==> exists p :: p in ps && x == p.0 + " " + GetActualUrl(p.1, pack)
  {
    var r := ResourceLines(pack, ps);
    forall x | x in r ensures exists p :: p in ps && x == p.0 + " " + GetActualUrl(p.1, pack) {
      var i :| 0 <= i < |r| && r[i] == x;
      assert ps[i] in ps;
    }
  }

  /** Line 143 on an array: `Object.entries` pairs each element with its index. */
  lemma ResourceIndexMembers(pack: Package, xs: seq<string>)
    ensures forall x :: x in ResourceLines(pack, EntriesOf(List(xs))) <==>
      exists i :: 0 <= i < |xs| && x == IndexText(i) + " " + GetActualUrl(xs[i], pack)
  {
    var r := ResourceLines(pack, EntriesOf(List(xs)));
    forall x | x in r ensures exists i :: 0 <= i < |xs| && x == IndexText(i) + " " + GetActualUrl(xs[i], pack) {
      var i :| 0 <= i < |r| && r[i] == x;
    }
    forall i | 0 <= i < |xs| ensures IndexText(i) + " " + GetActualUrl(xs[i], pack) in r {
      assert r[i] == IndexText(i) + " " + GetActualUrl(xs[i], pack);
    }
  }

  /** The line values one entry expands into (lines 128-160). */
  function Expand(pack: Package, e: Entry): (r: Result<seq<string>, TypeError>)
    ensures e.1.Undef? ==> r == Success([])
    ensures e.1.Bool? ==> r == Success([""])
    ensures e.1.Str? ==> r == Success([e.1.text])
    ensures e.1.List? || e.1.Res? ==> (r.Success? <==> e.1.List? || e.0 == "resource")
    ensures (e.1.List? || e.1.Res?) && r.Success? ==> StrictlyAscending(r.value)
    ensures e.1.List? && e.0 != "require" && e.0 != "resource" ==>
      forall x :: x in r.value <==> x in e.1.items
    ensures e.1.List? && e.0 == "require" ==>
      forall x :: x in r.value <==> exists u :: u in e.1.items && x == GetActualUrl(u, pack)
    ensures e.1.List? && e.0 == "resource" ==>
      forall x :: x in r.value <==>
        exists i :: 0 <= i < |e.1.items| && x == IndexText(i) + " " + GetActualUrl(e.1.items[i], pack)
    ensures e.1.Res? && e.0 == "resource" ==>
      forall x :: x in r.value <==> exists p :: p in e.1.pairs && x == p.0 + " " + GetActualUrl(p.1, pack)
  {
    match e.1
    case Undef => Success([])
    case Bool(_) => Success([""])
    case Str(s) => Success([s])
    case List(xs) =>
      ResolveAllMembers(pack, xs);
      ResourceIndexMembers(pack, xs);
      (match ListItems(pack, e)
       case Failure(err) => Failure(err)
       case Success(items) => Success(SortDedupe(items)))
    case Res(ps) =>
      ResourceLinesMembers(pack, ps);
      match ListItems(pack, e)
      case Failure(err) => Failure(err)
      case Success(items) => Success(SortDedupe(items))
  }

  /** The width `padEnd` pads every tag name to. */
  const TagWidth: nat := 14

  /** What trimming leaves of `p + t` when `t` is all whitespace and `p` does not end
      in whitespace. */
  lemma TrimEndAfter(p: string, t: string)
    requires p != [] && !IsJsWhitespace(p[|p| - 1])
    requires forall i :: 0 <= i < |t| ==> IsJsWhitespace(t[i])
    ensures TrimEnd(p + t) == p
  {
    var raw := p + t;
    var line := TrimEnd(raw);
    assert raw[|p| - 1] == p[|p| - 1];
    assert |line| >= |p|;
    assert forall i :: |p| <= i < |raw| ==> IsJsWhitespace(raw[i]) by {
      forall i | |p| <= i < |raw| ensures IsJsWhitespace(raw[i]) {
        assert raw[i] == t[i - |p|];
      }
    }
    assert |line| == |p|;
    assert line == raw[..|p|];
  }

  /** The raw line of line 162, before trimming. */
  function RawLine(key: string, value: string): string {
    "// @" + PadEnd(key, TagWidth) + value
  }

  /** Trimming never reaches into the `// @` prefix. */
  lemma RenderPrefix(key: string, value: string)
    ensures StartsWith(TrimEnd(RawLine(key, value)), "// @")
  {
    var raw := RawLine(key, value);
    var line := TrimEnd(raw);
    assert raw[..4] == "// @";
    assert !IsJsWhitespace(raw[3]);
    assert |line| >= 4;
    assert line[..4] == raw[..4];
  }

  /** A value that does not end in whitespace is kept whole. */
  lemma RenderValue(key: string, value: string)
    requires value != [] && !IsJsWhitespace(value[|value| - 1])
    ensures TrimEnd(RawLine(key, value)) == RawLine(key, value)
    ensures |key| >= TagWidth ==> RawLine(key, value) == "// @" + key + value
  {
    var raw := RawLine(key, value);
    assert raw[|raw| - 1] == value[|value| - 1];
    TrimEndAfter(raw, []);
    assert raw + [] == raw;
  }

  /** An empty value leaves the bare tag: the padding is trimmed away. */
  lemma RenderBare(key: string)
    requires key != [] && !IsJsWhitespace(key[|key| - 1])
    ensures TrimEnd(RawLine(key, "")) == "// @" + key
  {
    var pad := PadEnd(key, TagWidth);
    assert pad == key + pad[|key|..];
    assert RawLine(key, "") == ("// @" + key) + pad[|key|..];
    TrimEndAfter("// @" + key, pad[|key|..]);
  }

  /** Line 162: `` `// @${key.padEnd(14)}${value}`.trimEnd() ``. */
  function RenderLine(key: string, value: string): (line: string)
    ensures StartsWith(line, "// @")
    ensures value != [] && !IsJsWhitespace(value[|value| - 1]) ==>
      line == "// @" + PadEnd(key, TagWidth) + value
    ensures value != [] && !IsJsWhitespace(value[|value| - 1]) && |key| >= TagWidth ==>
      line == "// @" + key + value
    ensures value == [] && key != [] && !IsJsWhitespace(key[|key| - 1]) ==> line == "// @" + key
  {
    RenderPrefix(key, value);
    assert value != [] && !IsJsWhitespace(value[|value| - 1]) ==>
      TrimEnd(RawLine(key, value)) == RawLine(key, value) &&
      (|key| >= TagWidth ==> RawLine(key, value) == "// @" + key + value) by {
      if value != [] && !IsJsWhitespace(value[|value| - 1]) {
        RenderValue(key, value);
      }
    }
    assert value == [] && key != [] && !IsJsWhitespace(key[|key| - 1]) ==>
      TrimEnd(RawLine(key, value)) == "// @" + key by {
      if value == [] && key != [] && !IsJsWhitespace(key[|key| - 1]) {
        RenderBare(key);
      }
    }
    TrimEnd(RawLine(key, value))
  }

  /** The (key, value) pairs one entry contributes at line 161: each of its values,
      tagged with its key. */
  function Tagged(k: string, values: seq<string>): (ps: seq<(string, string)>)
    ensures |ps| == |values|
    ensures forall i :: 0 <= i < |values| ==> ps[i] == (k, values[i])
  {
    seq(|values|, i requires 0 <= i < |values| => (k, values[i]))
  }

  /** The values a list of (key, value) pairs holds under `k`, in order. */
  function ValuesFor(k: string, ps: seq<(string, string)>): (vs: seq<string>)
    ensures forall v :: v in vs <==> (k, v) in ps
    decreases |ps|
  {
    if ps == [] then []
    else
      assert ps == [ps[0]] + ps[1..];
      (if ps[0].0 == k then [ps[0].1] else []) + ValuesFor(k, ps[1..])
  }

  lemma {:induction false} ValuesForAppend(k: string, a: seq<(string, string)>, b: seq<(string, string)>)
    ensures ValuesFor(k, a + b) == ValuesFor(k, a) + ValuesFor(k, b)
    decreases |a|
  {
    if a == [] {
      assert a + b == b;
    } else {
      assert (a + b)[0] == a[0] && (a + b)[1..] == a[1..] + b;
      ValuesForAppend(k, a[1..], b);
    }
  }

  lemma {:induction false} ValuesForTagged(k: string, k': string, values: seq<string>)
    ensures ValuesFor(k, Tagged(k', values)) == if k == k' then values else []
    decreases |values|
  {
    if values != [] {
      assert Tagged(k', values)[1..] == Tagged(k', values[1..]);
      ValuesForTagged(k, k', values[1..]);
      assert values == [values[0]] + values[1..];
    }
  }

  /** A single value under `k` sits at one position, and no other pair has key `k`. */
  lemma {:induction false} ValuesForSingle(k: string, v: string, ps: seq<(string, string)>)
    requires ValuesFor(k, ps) == [v]
    ensures exists i :: 0 <= i < |ps| && ps[i] == (k, v) && forall j :: 0 <= j < |ps| && j != i ==> ps[j].0 != k
    decreases |ps|
  {
    var rest := ps[1..];
    if ps[0].0 == k {
      assert ValuesFor(k, rest) == [];
      forall j | 0 < j < |ps| ensures ps[j].0 != k {
        assert ps[j] == rest[j - 1];
        assert (k, ps[j].1) !in rest;
      }
      assert ps[0] == (k, v);
    } else {
      ValuesForSingle(k, v, rest);
      var i :| 0 <= i < |rest| && rest[i] == (k, v) && forall j :: 0 <= j < |rest| && j != i ==> rest[j].0 != k;
      forall j | 0 <= j < |ps| && j != i + 1 ensures ps[j].0 != k {
        if j > 0 { assert ps[j] == rest[j - 1]; }
      }
    }
  }

  /** Line 161: the (key, value) pairs of all entries, flattened in order; the first
      entry whose expansion throws aborts the chain. */
  function ExpandAll(pack: Package, es: Record): (r: Result<seq<(string, string)>, TypeError>)
    ensures r.Success? <==> forall i :: 0 <= i < |es| ==> Expand(pack, es[i]).Success?
  {
    if es == [] then Success([])
    else
      match Expand(pack, es[0])
      case Failure(err) => Failure(err)
      case Success(values) =>
        match ExpandAll(pack, es[1..])
        case Failure(err) => Failure(err)
        case Success(rest) => Success(Tagged(es[0].0, values) + rest)
  }

  lemma TailOfAppend<T>(a: seq<T>, b: seq<T>)
    requires a != []
    ensures (a + b)[0] == a[0] && (a + b)[1..] == a[1..] + b
  {
  }

  lemma ExpandAllTail(pack: Package, s: Record)
    requires s != [] && ExpandAll(pack, s).Success?
    ensures Expand(pack, s[0]).Success? && ExpandAll(pack, s[1..]).Success?
  {
  }

  lemma ExpandAllCons(pack: Package, s: Record)
    requires s != [] && Expand(pack, s[0]).Success? && ExpandAll(pack, s[1..]).Success?
    ensures ExpandAll(pack, s) == Success(Tagged(s[0].0, Expand(pack, s[0]).value) + ExpandAll(pack, s[1..]).value)
  {
  }

  /** The flattening distributes over a split of the entries. */
  lemma {:induction false} ExpandAllAppend(pack: Package, a: Record, b: Record)
    requires ExpandAll(pack, a).Success? && ExpandAll(pack, b).Success?
    ensures ExpandAll(pack, a + b) == Success(ExpandAll(pack, a).value + ExpandAll(pack, b).value)
    decreases |a|
  {
    if a == [] {
      assert a + b == b;
      assert ExpandAll(pack, a).value + ExpandAll(pack, b).value == ExpandAll(pack, b).value;
    } else {
      var ab, tail := a + b, a[1..];
      TailOfAppend(a, b);
      ExpandAllTail(pack, a);
      ExpandAllAppend(pack, tail, b);
      ExpandAllCons(pack, a);
      ExpandAllCons(pack, ab);
      var head := Tagged(a[0].0, Expand(pack, a[0]).value);
      var ta, tb := ExpandAll(pack, tail).value, ExpandAll(pack, b).value;
      assert head + (ta + tb) == (head + ta) + tb;
    }
  }

  /** One entry contributes its expansion, every value tagged with the entry's key. */
  lemma ExpandAllOne(pack: Package, e: Entry)
    requires Expand(pack, e).Success?
    ensures ExpandAll(pack, [e]) == Success(Tagged(e.0, Expand(pack, e).value))
  {
    assert [e][1..] == [];
    assert Tagged(e.0, Expand(pack, e).value) + [] == Tagged(e.0, Expand(pack, e).value);
  }

  /** With distinct keys, the values the flattened list holds under `k` are exactly
      the expansion of `k`'s value, in its order; none when `k` is absent. */
  lemma {:induction false} ExpandAllValuesFor(pack: Package, es: Record, k: string)
    requires DistinctKeys(es) && ExpandAll(pack, es).Success?
    ensures Expand(pack, (k, Get(es, k))).Success?
    ensures ValuesFor(k, ExpandAll(pack, es).value) == Expand(pack, (k, Get(es, k))).value
    decreases |es|
  {
    if es != [] {
      var rest := es[1..];
      assert es == [es[0]] + rest;
      assert forall i :: 0 <= i < |rest| ==> rest[i] == es[i + 1];
      ExpandAllValuesFor(pack, rest, k);
      var vals := Expand(pack, es[0]).value;
      ValuesForAppend(k, Tagged(es[0].0, vals), ExpandAll(pack, rest).value);
      ValuesForTagged(k, es[0].0, vals);
      GetCons(es[0], rest, k);
      if es[0].0 == k {
        assert !Has(rest, k);
        assert ExpandAll(pack, rest).value == [] || ValuesFor(k, ExpandAll(pack, rest).value) == [];
        assert vals + [] == vals;
      }
    }
  }

  /** With distinct keys, the sorted and flattened pairs hold under each tag exactly
      the values that tag's entry expands into. */
  lemma SortedPairs(order: seq<string>, pack: Package, meta: Record, k: string)
    requires DistinctKeys(meta) && ExpandAll(pack, SortByRank(order, meta)).Success?
    ensures Expand(pack, (k, Get(meta, k))).Success?
    ensures ValuesFor(k, ExpandAll(pack, SortByRank(order, meta)).value) == Expand(pack, (k, Get(meta, k))).value
  {
    SortByRankDistinct(order, meta);
    ExpandAllValuesFor(pack, SortByRank(order, meta), k);
  }

  /** Line 162 for each flattened pair: every line is a tag line. */
  function Lines(pairs: seq<(string, string)>): (ls: seq<string>)
    ensures |ls| == |pairs|
    ensures forall i :: 0 <= i < |pairs| ==> ls[i] == RenderLine(pairs[i].0, pairs[i].1)
    ensures forall i :: 0 <= i < |ls| ==> StartsWith(ls[i], "// @")
  {
    seq(|pairs|, i requires 0 <= i < |pairs| => RenderLine(pairs[i].0, pairs[i].1))
  }

  /** Lines 123-163: the text between the sentinels. */
  function HeaderBody(order: seq<string>, pack: Package, meta: Record): Result<string, TypeError> {
    match ExpandAll(pack, SortByRank(order, meta))
    case Failure(err) => Failure(err)
    case Success(pairs) => Success(Join(Lines(pairs), "\n"))
  }

  const OpenSentinel := "// ==UserScript=="
  const CloseSentinel := "// ==/UserScript=="

  /** Line 168. */
  function Wrap(body: string): string {
    OpenSentinel + "\n" + body + "\n" + CloseSentinel
  }

  /** The header opens with the first sentinel line and closes with the second. */
  lemma WrapShape(body: string)
    ensures StartsWith(Wrap(body), OpenSentinel + "\n")
    ensures EndsWith(Wrap(body), "\n" + CloseSentinel)
  {
    var open, close := OpenSentinel + "\n", "\n" + CloseSentinel;
    assert Wrap(body) == open + (body + close);
    assert Wrap(body) == (open + body) + close;
    assert (open + (body + close))[..|open|] == open;
    assert ((open + body) + close)[|open + body|..] == close;
  }

  lemma {:induction false} JoinAppend(a: seq<string>, b: seq<string>, sep: string)
    requires a != [] && b != []
    ensures Join(a + b, sep) == Join(a, sep) + sep + Join(b, sep)
    decreases |a|
  {
    if |a| == 1 {
      assert (a + b)[1..] == b;
    } else {
      assert (a + b)[1..] == a[1..] + b;
      JoinAppend(a[1..], b, sep);
    }
  }

  /** The header is the tag lines framed by the two sentinel lines. */
  lemma WrapFrames(lines: seq<string>)
    requires lines != []
    ensures Wrap(Join(lines, "\n")) == Join([OpenSentinel] + lines + [CloseSentinel], "\n")
  {
    JoinAppend([OpenSentinel], lines, "\n");
    JoinAppend([OpenSentinel] + lines, [CloseSentinel], "\n");
  }

  /** An expansion of a plain list is its sorted, deduplicated items. */
  lemma ExpandPlainList(pack: Package, k: string, xs: seq<string>, want: seq<string>)
    requires k != "require" && k != "resource"
    requires StrictlyAscending(want) && forall x :: x in xs <==> x in want
    ensures Expand(pack, (k, List(xs))) == Success(want)
  {
    var r := Expand(pack, (k, List(xs)));
    StrictlyAscendingUnique(r.value, want);
  }

  // Worked examples. Each takes its string literals as parameters pinned down by
  // `requires x == "..."`. The literal is then a single term the proof can name, and
  // its characters are spelled out only where an assertion asks for them; written
  // inline, every literal is unfolded character by character at each use, which makes
  // these otherwise small proofs expensive.

  /** With nothing scanned and nothing overridden the grant list is `["none"]`; it
      renders as the single line `// @grant         none`. */
  lemma DefaultGrantLine(pack: Package, none: string)
    requires none == "none"
    ensures Expand(pack, ("grant", List([none]))) == Success([none])
    ensures RenderLine("grant", none) == "// @grant         none"
  {
    ExpandPlainList(pack, "grant", [none], [none]);
    GrantNoneLine("grant", none);
  }

  lemma GrantNoneLine(grant: string, none: string)
    requires grant == "grant" && none == "none"
    ensures RenderLine(grant, none) == "// @grant         none"
  {
    assert none[|none| - 1] == 'e';
    var pad := PadEnd(grant, TagWidth);
    assert pad == "grant         ";
  }

  lemma GrantTokensAscending(a: string, b: string, c: string)
    requires a == "GM.getValue" && b == "GM.setValue" && c == "none"
    ensures StrictlyAscending([a, b, c])
  {
    assert a[..3] == b[..3] && a[3] == 'g' && b[3] == 's';
    LessFromFirstDifference(a, b, 3);
    LessFromFirstDifference(a, c, 0);
    LessFromFirstDifference(b, c, 0);
  }

  /** The grant list `["none", "GM.setValue", "GM.getValue", "GM.setValue"]` (an
      override list after an empty scan) yields the three distinct tokens in ascending
      order, `none` last. */
  lemma GrantsSortedAndDeduplicated(pack: Package, a: string, b: string, c: string)
    requires a == "GM.getValue" && b == "GM.setValue" && c == "none"
    ensures Expand(pack, ("grant", List([c, b, a, b]))) == Success([a, b, c])
  {
    GrantTokensAscending(a, b, c);
    ExpandPlainList(pack, "grant", [c, b, a, b], [a, b, c]);
  }

  /** An expansion of a one-item `require` list is that item, resolved. */
  lemma ExpandSingleRequire(pack: Package, u: string)
    ensures Expand(pack, ("require", List([u]))) == Success([GetActualUrl(u, pack)])
  {
    var r := Expand(pack, ("require", List([u])));
    var want := [GetActualUrl(u, pack)];
    forall x ensures x in r.value <==> x in want {
      assert x in r.value <==> exists v :: v in [u] && x == GetActualUrl(v, pack);
    }
    StrictlyAscendingUnique(r.value, want);
  }

  /** The repository string `https://github.com/a/b` is its own repository URL. */
  lemma PlainRepository(pack: Package, repo: string)
    requires repo == "https://github.com/a/b" && pack.repository == RepoString(repo)
    ensures GetRepo(pack) == Some(repo) && RepoTruthy(GetRepo(pack))
  {
    assert !StartsWith(repo, "git+") by { assert repo[0] != 'g'; }
    assert !EndsWith(repo, ".git") by { assert repo[|repo| - 1] != 't'; }
    StripGitClean(repo);
  }

  /** A relative `require` is resolved against the repository. */
  lemma RequireResolved(pack: Package, repo: string, relative: string)
    requires repo == "https://github.com/a/b" && pack.repository == RepoString(repo)
    requires relative == "lib/foo.js"
    ensures Expand(pack, ("require", List([relative]))) == Success([repo + "/" + relative])
  {
    PlainRepository(pack, repo);
    assert !StartsWith(relative, "http") by { assert relative[0] != 'h'; }
    assert GetActualUrl(relative, pack) == repo + "/" + relative;
    ExpandSingleRequire(pack, relative);
  }

  /** An absolute `require` is kept as written. */
  lemma AbsoluteRequireKept(pack: Package, absolute: string)
    requires absolute == "https://cdn.example/x.js"
    ensures Expand(pack, ("require", List([absolute]))) == Success([absolute])
  {
    assert StartsWith(absolute, "http") by { assert absolute[..4] == "http"; }
    assert GetActualUrl(absolute, pack) == absolute;
    ExpandSingleRequire(pack, absolute);
  }
}
