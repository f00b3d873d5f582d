/** A userscript metadata object as JavaScript holds it: an insertion-ordered list of
    (key, value) entries with distinct keys. Reading a missing key gives `undefined`;
    assigning to an existing key keeps its position, assigning to a new key appends it;
    `delete` removes the entry. `Object.entries` is the list itself. */
module Record {
  import opened JsString

  /** The kinds of value a metadata field takes: `undefined`, a boolean flag, a string,
      an array of strings, or an object mapping resource names to URLs. */
  datatype MetaValue =
    | Undef
    | Bool(flag: bool)
    | Str(text: string)
    | List(items: seq<string>)
    | Res(pairs: seq<(string, string)>)

  type Entry = (string, MetaValue)
  type Record = seq<Entry>

  function Keys(r: Record): (ks: seq<string>)
    ensures |ks| == |r|
    ensures forall i :: 0 <= i < |r| ==> ks[i] == r[i].0
  {
    seq(|r|, i requires 0 <= i < |r| => r[i].0)
  }

  ghost predicate DistinctKeys(r: Record) {
    forall i, j :: 0 <= i < j < |r| ==> r[i].0 != r[j].0
  }

  /** The names of a resource object are distinct. */
  ghost predicate DistinctNames(ps: seq<(string, string)>) {
    forall i, j :: 0 <= i < j < |ps| ==> ps[i].0 != ps[j].0
  }

  /** A record `JSON.parse` can produce: an object has each key once, and so does every
      resource object inside it. */
  ghost predicate JsonObject(r: Record) {
    && DistinctKeys(r)
    && forall e :: e in r && e.1.Res? ==> DistinctNames(e.1.pairs)
  }

  /** Position of the first entry for `k` at or after `from`, or `|r|` if there is none. */
  function FindFrom(r: Record, k: string, from: nat): (i: nat)
    requires from <= |r|
    ensures from <= i <= |r|
    ensures i < |r| ==> r[i].0 == k
    ensures forall j :: from <= j < i ==> r[j].0 != k
    decreases |r| - from
  {
    if from == |r| then from else if r[from].0 == k then from else FindFrom(r, k, from + 1)
  }

  /** Position of the entry for `k`, or `|r|` if there is none. */
  function Find(r: Record, k: string): (i: nat)
    ensures i <= |r|
    ensures i < |r| ==> r[i].0 == k
    ensures forall j :: 0 <= j < i ==> r[j].0 != k
  {
    FindFrom(r, k, 0)
  }

  lemma FindIs(r: Record, k: string, i: nat)
    requires i <= |r|
    requires i < |r| ==> r[i].0 == k
    requires forall j :: 0 <= j < i ==> r[j].0 != k
    ensures Find(r, k) == i
  {
  }

  /** Replacing the entry at `i` by one with key `k` moves no other key. */
  lemma FindAfterUpdate(r: Record, i: nat, e: Entry, k': string)
    requires i < |r| && r[i].0 == e.0 && k' != e.0
    ensures Find(r[i := e], k') == Find(r, k')
  {
    var f := Find(r, k');
    FindIs(r[i := e], k', f);
  }

  lemma FindAfterAppend(r: Record, e: Entry, k': string)
    requires k' != e.0
    ensures Find(r + [e], k') == if Has(r, k') then Find(r, k') else |r| + 1
  {
    var f := if Has(r, k') then Find(r, k') else |r| + 1;
    FindIs(r + [e], k', f);
  }

  lemma FindAfterDelete(r: Record, i: nat, k': string)
    requires i < |r| && r[i].0 != k'
    requires DistinctKeys(r)
    ensures Find(r[..i] + r[i + 1..], k') == if Find(r, k') < i then Find(r, k') else Find(r, k') - 1
  {
    var r' := r[..i] + r[i + 1..];
    var f := Find(r, k');
    if f < i {
      FindIs(r', k', f);
    } else {
      FindIs(r', k', f - 1);
    }
  }

  predicate Has(r: Record, k: string) {
    Find(r, k) < |r|
  }

  lemma HasIsInKeys(r: Record, k: string)
    ensures Has(r, k) <==> k in Keys(r)
  {
    if k in Keys(r) {
      var i :| 0 <= i < |r| && Keys(r)[i] == k;
      assert Find(r, k) <= i;
    }
  }

  /** `r[k]`. */
  function Get(r: Record, k: string): (v: MetaValue)
    ensures !Has(r, k) ==> v == Undef
    ensures Has(r, k) ==> (k, v) in r
  {
    var i := Find(r, k);
    if i < |r| then r[i].1 else Undef
  }

  /** Reading from a record with one more entry in front. */
  lemma GetCons(e: Entry, r: Record, k: string)
    ensures Get([e] + r, k) == if e.0 == k then e.1 else Get(r, k)
    ensures Has([e] + r, k) == (e.0 == k || Has(r, k))
  {
    var f := Find(r, k);
    var s := [e] + r;
    assert forall j :: 1 <= j < |s| ==> s[j] == r[j - 1];
    FindIs(s, k, if e.0 == k then 0 else f + 1);
  }

  /** `r[k] = v`. */
  function Set(r: Record, k: string, v: MetaValue): (r': Record)
    ensures Get(r', k) == v && Has(r', k)
    ensures forall k' :: k' != k ==> Get(r', k') == Get(r, k') && Has(r', k') == Has(r, k')
  {
    var i := Find(r, k);
    if i < |r| then
      var r' := r[i := (k, v)];
      FindIs(r', k, i);
      forall k' | k' != k ensures Find(r', k') == Find(r, k') {
        FindAfterUpdate(r, i, (k, v), k');
      }
      r'
    else
      var r' := r + [(k, v)];
      FindIs(r', k, i);
      forall k' | k' != k ensures Find(r', k') == if Has(r, k') then Find(r, k') else |r'| {
        FindAfterAppend(r, (k, v), k');
      }
      r'
  }

  /** Assigning to an existing key keeps every key in place; assigning to a new key
      appends it. Either way the keys stay distinct. */
  lemma SetKeys(r: Record, k: string, v: MetaValue)
    ensures Has(r, k) ==> Keys(Set(r, k, v)) == Keys(r)
    ensures !Has(r, k) ==> Keys(Set(r, k, v)) == Keys(r) + [k]
    ensures DistinctKeys(r) ==> DistinctKeys(Set(r, k, v))
  {
    var i := Find(r, k);
    if i < |r| {
      assert Set(r, k, v) == r[i := (k, v)];
      UpdateKeys(r, i, (k, v));
    } else {
      assert Set(r, k, v) == r + [(k, v)];
      AppendKeys(r, (k, v));
    }
  }

  lemma UpdateKeys(r: Record, i: nat, e: Entry)
    requires i < |r| && r[i].0 == e.0
    ensures Keys(r[i := e]) == Keys(r)
    ensures DistinctKeys(r) ==> DistinctKeys(r[i := e])
  {
  }

  lemma AppendKeys(r: Record, e: Entry)
    requires forall j :: 0 <= j < |r| ==> r[j].0 != e.0
    ensures Keys(r + [e]) == Keys(r) + [e.0]
    ensures DistinctKeys(r) ==> DistinctKeys(r + [e])
  {
    var r' := r + [e];
    var ks, ks' := Keys(r), Keys(r');
    assert forall j :: 0 <= j < |r| ==> r'[j] == r[j];
    assert forall j :: 0 <= j < |r| ==> ks'[j] == ks[j];
    assert ks' == ks + [e.0];
    assert DistinctKeys(r) ==> forall i, j :: 0 <= i < j < |r'| ==> r'[i].0 != r'[j].0;
  }

  /** `delete r[k]`. */
  function Remove(r: Record, k: string): (r': Record)
    requires DistinctKeys(r)
    ensures !Has(r', k) && Get(r', k) == Undef
    ensures forall k' :: k' != k ==> Get(r', k') == Get(r, k') && Has(r', k') == Has(r, k')
    ensures DistinctKeys(r')
    ensures |r'| <= |r|
    ensures forall e :: e in r' ==> e in r
  {
    var i := Find(r, k);
    if i == |r| then r
    else
      var r' := r[..i] + r[i + 1..];
      FindIs(r', k, |r'|);
      forall k' | k' != k ensures Find(r', k') == if Find(r, k') < i then Find(r, k') else Find(r, k') - 1 {
        FindAfterDelete(r, i, k');
      }
      forall e | e in r' ensures e in r {
        var j :| 0 <= j < |r'| && r'[j] == e;
        if j < i { assert r[j] == e; } else { assert r[j + 1] == e; }
      }
      r'
  }

  /** The keys of `ks`, in order, that are not in `existing`. */
  function NewKeys(ks: seq<string>, existing: seq<string>): (r: seq<string>)
    ensures forall k :: k in r <==> k in ks && k !in existing
  {
    if ks == [] then []
    else NewKeys(ks[..|ks| - 1], existing) + (if ks[|ks| - 1] in existing then [] else [ks[|ks| - 1]])
  }

  lemma NewKeysOne(k: string, existing: seq<string>)
    ensures NewKeys([k], existing) == if k in existing then [] else [k]
  {
    assert [k][..0] == [];
  }

  /** The new keys of a concatenation are those of each part, in order. */
  lemma {:induction false} NewKeysAppend(a: seq<string>, b: seq<string>, existing: seq<string>)
    ensures NewKeys(a + b, existing) == NewKeys(a, existing) + NewKeys(b, existing)
    decreases |b|
  {
    if b == [] {
      assert a + b == a;
    } else {
      var n := |b| - 1;
      assert (a + b)[..|a + b| - 1] == a + b[..n];
      assert (a + b)[|a + b| - 1] == b[n];
      NewKeysAppend(a, b[..n], existing);
    }
  }

  /** Only whether each candidate key already exists matters. */
  lemma {:induction false} NewKeysSame(ks: seq<string>, e1: seq<string>, e2: seq<string>)
    requires forall i :: 0 <= i < |ks| ==> (ks[i] in e1 <==> ks[i] in e2)
    ensures NewKeys(ks, e1) == NewKeys(ks, e2)
    decreases |ks|
  {
    if ks != [] {
      var n := |ks| - 1;
      assert forall i :: 0 <= i < n ==> ks[..n][i] == ks[i];
      NewKeysSame(ks[..n], e1, e2);
    }
  }

  /** Keys appended from `base` do not change which of `ks` are new, when no key of
      `ks` is in `base`. */
  lemma NewKeysPast(ks: seq<string>, base: seq<string>, existing: seq<string>)
    requires forall i :: 0 <= i < |ks| ==> ks[i] !in base
    ensures NewKeys(ks, existing + NewKeys(base, existing)) == NewKeys(ks, existing)
  {
    NewKeysSame(ks, existing + NewKeys(base, existing), existing);
  }

  /** Appending the new keys of `base` and then those of `ks` (none of which is in
      `base`) appends the new keys of `base + ks`. */
  lemma NewKeysThen(existing: seq<string>, base: seq<string>, ks: seq<string>)
    requires forall i :: 0 <= i < |ks| ==> ks[i] !in base
    ensures var e := existing + NewKeys(base, existing);
      e + NewKeys(ks, e) == existing + NewKeys(base + ks, existing)
  {
    NewKeysPast(ks, base, existing);
    NewKeysAppend(base, ks, existing);
  }

  /** `Object.assign(target, source)`: the source's entries are assigned to the target
      one by one, in the source's order. */
  function Assign(target: Record, source: Record): (r: Record)
    ensures forall k :: Has(target, k) ==> Has(r, k)
    decreases |source|
  {
    if source == [] then target
    else Set(Assign(target, source[..|source| - 1]), source[|source| - 1].0, source[|source| - 1].1)
  }

  /** `Object.assign` never duplicates a key. */
  lemma {:induction false} AssignDistinct(target: Record, source: Record)
    requires DistinctKeys(target)
    ensures DistinctKeys(Assign(target, source))
    decreases |source|
  {
    if source != [] {
      var n := |source| - 1;
      AssignDistinct(target, source[..n]);
      SetKeys(Assign(target, source[..n]), source[n].0, source[n].1);
    }
  }

  /** Dropping the last entry of a record moves no key: a key found before the last
      position is found at the same place, any other key only at the end. */
  lemma FindInInit(source: Record, k': string)
    requires source != []
    ensures var n := |source| - 1;
      Find(source, k') == if Find(source[..n], k') < n then Find(source[..n], k')
                          else if source[n].0 == k' then n else |source|
  {
    var n := |source| - 1;
    var init := source[..n];
    var f := Find(init, k');
    assert forall j :: 0 <= j < n ==> init[j] == source[j];
    if f < n {
      FindIs(source, k', f);
    } else if source[n].0 == k' {
      FindIs(source, k', n);
    } else {
      FindIs(source, k', |source|);
    }
  }

  lemma DropLast(source: Record)
    requires source != [] && DistinctKeys(source)
    ensures var n := |source| - 1;
      && DistinctKeys(source[..n])
      && Keys(source[..n]) == Keys(source)[..n]
      && !Has(source[..n], source[n].0)
  {
    var n := |source| - 1;
    FindIs(source[..n], source[n].0, n);
  }

  /** After `Object.assign`, a key holds the source's value if the source has it and
      the target's value otherwise; it is present if either has it. */
  lemma {:induction false} AssignAt(target: Record, source: Record, k: string)
    requires DistinctKeys(source)
    ensures Get(Assign(target, source), k) == if Has(source, k) then Get(source, k) else Get(target, k)
    ensures Has(Assign(target, source), k) <==> Has(source, k) || Has(target, k)
    decreases |source|
  {
    if source != [] {
      DropLast(source);
      FindInInit(source, k);
      AssignAt(target, source[..|source| - 1], k);
    }
  }

  lemma AssignValues(target: Record, source: Record)
    requires DistinctKeys(source)
    ensures forall k :: Get(Assign(target, source), k) == if Has(source, k) then Get(source, k) else Get(target, k)
    ensures forall k :: Has(Assign(target, source), k) <==> Has(source, k) || Has(target, k)
  {
    forall k ensures Get(Assign(target, source), k) == (if Has(source, k) then Get(source, k) else Get(target, k))
      && (Has(Assign(target, source), k) <==> Has(source, k) || Has(target, k))
    {
      AssignAt(target, source, k);
    }
  }

  /** `Object.assign` keeps the target's keys in place and appends the source's new
      keys in the source's order. */
  lemma {:induction false} AssignKeys(target: Record, source: Record)
    requires DistinctKeys(source)
    ensures Keys(Assign(target, source)) == Keys(target) + NewKeys(Keys(source), Keys(target))
    decreases |source|
  {
    if source != [] {
      var n := |source| - 1;
      var init := source[..n];
      var k := source[n].0;
      DropLast(source);
      FindInInit(source, k);
      AssignKeys(target, init);
      AssignAt(target, init, k);
      var acc := Assign(target, init);
      SetKeys(acc, k, source[n].1);
      HasIsInKeys(acc, k);
      HasIsInKeys(target, k);
      HasIsInKeys(init, k);
      assert Keys(source)[..n] == Keys(init);
    }
  }
}
