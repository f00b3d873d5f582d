/** `Array.prototype.dedupe` from src/extension/array.extension.ts.

    The receiver is filtered of `undefined` elements, each element is mapped to its
    JSON text, the texts go through a `Set` (which keeps the first occurrence of each,
    in insertion order) and are parsed back. For the strings the plugin deduplicates,
    `JSON.parse(JSON.stringify(e)) == e` and two strings have the same JSON text exactly
    when they are equal, so the JSON step is modelled as the identity and equality of
    serialisations as equality of values. `None` stands for `undefined`. The receiver
    is never changed: every step builds a fresh array, which is why this is a function. */
module ArrayExtension {
  import opened Wrappers
  import opened JsString

  ghost predicate Distinct<T(!new)>(s: seq<T>) {
    forall i, j :: 0 <= i < j < |s| ==> s[i] != s[j]
  }

  /** `filter(e => typeof e != "undefined")`. */
  function Defined<T(!new)>(xs: seq<Option<T>>): (r: seq<Option<T>>)
    ensures forall i :: 0 <= i < |r| ==> r[i].Some?
    ensures forall x :: x in r <==> x in xs && x.Some?
    ensures |r| <= |xs|
  {
    if xs == [] then []
    else (if xs[0].Some? then [xs[0]] else []) + Defined(xs[1..])
  }

  /** The elements of `[...new Set(xs)]` when `seen` is already in the set: the first
      occurrence of every element not in `seen`, in input order. */
  function UniqueFrom<T(==,!new)>(xs: seq<T>, seen: set<T>): (r: seq<T>)
    ensures forall x :: x in r <==> x in xs && x !in seen
    ensures Distinct(r)
    ensures |r| <= |xs|
  {
    if xs == [] then []
    else if xs[0] in seen then UniqueFrom(xs[1..], seen)
    else [xs[0]] + UniqueFrom(xs[1..], seen + {xs[0]})
  }

  /** `[...new Set(xs)]`: every element once. */
  function Unique<T(==,!new)>(xs: seq<T>): (r: seq<T>)
    ensures forall x :: x in r <==> x in xs
    ensures Distinct(r)
  {
    UniqueFrom(xs, {})
  }

  /** `xs.dedupe()`. */
  function Dedupe<T(==,!new)>(xs: seq<Option<T>>): (r: seq<Option<T>>)
    ensures forall i :: 0 <= i < |r| ==> r[i].Some?
    ensures Distinct(r)
    ensures forall x :: x in r <==> x in xs && x.Some?
    ensures |r| <= |xs|
  {
    Unique(Defined(xs))
  }

  /** Index of the first occurrence of `x` in `xs`. */
  function FirstIndex<T(==,!new)>(xs: seq<T>, x: T): (i: nat)
    requires x in xs
    ensures i < |xs| && xs[i] == x
    ensures forall j :: 0 <= j < i ==> xs[j] != x
  {
    if xs[0] == x then 0 else 1 + FirstIndex(xs[1..], x)
  }

  lemma FirstIndexTail<T(!new)>(xs: seq<T>, y: T)
    requires xs != [] && y in xs[1..] && y != xs[0]
    ensures y in xs && FirstIndex(xs, y) == 1 + FirstIndex(xs[1..], y)
  {
    assert xs == [xs[0]] + xs[1..];
  }

  lemma {:induction false} UniqueFromKeepsFirstOrder<T(!new)>(xs: seq<T>, seen: set<T>)
    ensures forall i, j :: 0 <= i < j < |UniqueFrom(xs, seen)| ==>
      FirstIndex(xs, UniqueFrom(xs, seen)[i]) < FirstIndex(xs, UniqueFrom(xs, seen)[j])
    decreases |xs|
  {
    if xs != [] {
      var r := UniqueFrom(xs, seen);
      var t := xs[1..];
      if xs[0] in seen {
        UniqueFromKeepsFirstOrder(t, seen);
        assert r == UniqueFrom(t, seen);
        forall i, j | 0 <= i < j < |r| ensures FirstIndex(xs, r[i]) < FirstIndex(xs, r[j]) {
          assert r[i] in r && r[j] in r;
          FirstIndexTail(xs, r[i]);
          FirstIndexTail(xs, r[j]);
        }
      } else {
        var seen' := seen + {xs[0]};
        var rest := UniqueFrom(t, seen');
        assert r == [xs[0]] + rest;
        UniqueFromKeepsFirstOrder(t, seen');
        forall i, j | 0 <= i < j < |r| ensures FirstIndex(xs, r[i]) < FirstIndex(xs, r[j]) {
          assert r[j] == rest[j - 1] && rest[j - 1] in rest;
          FirstIndexTail(xs, r[j]);
          if i > 0 {
            assert r[i] == rest[i - 1] && rest[i - 1] in rest;
            FirstIndexTail(xs, r[i]);
          }
        }
      }
    }
  }

  lemma {:induction false} DefinedKeepsOrder<T(!new)>(xs: seq<Option<T>>, x: Option<T>, y: Option<T>)
    requires x in Defined(xs) && y in Defined(xs)
    ensures FirstIndex(Defined(xs), x) < FirstIndex(Defined(xs), y) <==> FirstIndex(xs, x) < FirstIndex(xs, y)
    decreases |xs|
  {
    var d, t := Defined(xs), Defined(xs[1..]);
    if xs[0].Some? {
      assert d == [xs[0]] + t;
      if x != xs[0] && y != xs[0] {
        DefinedKeepsOrder(xs[1..], x, y);
        assert FirstIndex(d, x) == 1 + FirstIndex(t, x);
        assert FirstIndex(d, y) == 1 + FirstIndex(t, y);
      }
    } else {
      assert d == t;
      assert x != xs[0] && y != xs[0];
      DefinedKeepsOrder(xs[1..], x, y);
    }
  }

  /** The result lists the defined values in the order of their first occurrence. */
  lemma DedupeKeepsFirstOrder<T(!new)>(xs: seq<Option<T>>)
    ensures forall i, j :: 0 <= i < j < |Dedupe(xs)| ==>
      FirstIndex(xs, Dedupe(xs)[i]) < FirstIndex(xs, Dedupe(xs)[j])
  {
    var d := Defined(xs);
    var r := Dedupe(xs);
    UniqueFromKeepsFirstOrder(d, {});
    forall i, j | 0 <= i < j < |r| ensures FirstIndex(xs, r[i]) < FirstIndex(xs, r[j]) {
      assert r[i] in d && r[j] in d;
      DefinedKeepsOrder(xs, r[i], r[j]);
    }
  }

  lemma {:induction false} UniqueFromOfDistinct<T(!new)>(xs: seq<T>, seen: set<T>)
    requires Distinct(xs)
    requires forall x :: x in xs ==> x !in seen
    ensures UniqueFrom(xs, seen) == xs
    decreases |xs|
  {
    if xs != [] {
      var t := xs[1..];
      assert xs[0] !in seen by { assert xs[0] in xs; }
      assert Distinct(t) by {
        forall i, j | 0 <= i < j < |t| ensures t[i] != t[j] {
          assert t[i] == xs[i + 1] && t[j] == xs[j + 1];
        }
      }
      forall x | x in t ensures x !in seen + {xs[0]} {
        var k :| 0 <= k < |t| && t[k] == x;
        assert xs[k + 1] == x && x in xs;
      }
      UniqueFromOfDistinct(t, seen + {xs[0]});
      assert xs == [xs[0]] + t;
    }
  }

  lemma {:induction false} DefinedOfDefined<T(!new)>(xs: seq<Option<T>>)
    requires forall i :: 0 <= i < |xs| ==> xs[i].Some?
    ensures Defined(xs) == xs
    decreases |xs|
  {
    if xs != [] {
      DefinedOfDefined(xs[1..]);
    }
  }

  /** `x.dedupe().dedupe() == x.dedupe()`. */
  lemma DedupeIdempotent<T(!new)>(xs: seq<Option<T>>)
    ensures Dedupe(Dedupe(xs)) == Dedupe(xs)
  {
    var r := Dedupe(xs);
    DefinedOfDefined(r);
    UniqueFromOfDistinct(r, {});
  }

  /** A string array seen through JavaScript: every element defined. */
  function Lift<T(!new)>(s: seq<T>): (r: seq<Option<T>>)
    ensures |r| == |s|
    ensures forall i :: 0 <= i < |s| ==> r[i] == Some(s[i])
  {
    if s == [] then [] else [Some(s[0])] + Lift(s[1..])
  }

  /** The defined values of an array, in order. */
  function Values<T(!new)>(xs: seq<Option<T>>): (r: seq<T>)
    ensures forall x :: x in r <==> Some(x) in xs
    ensures |r| <= |xs|
  {
    if xs == [] then []
    else (if xs[0].Some? then [xs[0].value] else []) + Values(xs[1..])
  }

  lemma {:induction false} UniqueFromLift<T(!new)>(s: seq<T>, seen: set<T>, lseen: set<Option<T>>)
    requires forall x :: Some(x) in lseen <==> x in seen
    ensures UniqueFrom(Lift(s), lseen) == Lift(UniqueFrom(s, seen))
    decreases |s|
  {
    if s != [] {
      assert Lift(s)[1..] == Lift(s[1..]);
      UniqueFromLift(s[1..], seen, lseen);
      UniqueFromLift(s[1..], seen + {s[0]}, lseen + {Some(s[0])});
    }
  }

  lemma {:induction false} ValuesLift<T(!new)>(s: seq<T>)
    ensures Values(Lift(s)) == s
    decreases |s|
  {
    if s != [] {
      assert Lift(s)[1..] == Lift(s[1..]);
      ValuesLift(s[1..]);
    }
  }

  /** On an array with no `undefined` element, `dedupe` is `[...new Set(s)]`. */
  lemma DedupeLift<T(!new)>(s: seq<T>)
    ensures Values(Dedupe(Lift(s))) == Unique(s)
  {
    DefinedOfDefined(Lift(s));
    UniqueFromLift(s, {}, {});
    ValuesLift(Unique(s));
  }

  lemma {:induction false} UniqueFromSorted(s: seq<string>, seen: set<string>)
    requires Sorted(s)
    ensures StrictlyAscending(UniqueFrom(s, seen))
    decreases |s|
  {
    if s != [] {
      var seen' := if s[0] in seen then seen else seen + {s[0]};
      UniqueFromSorted(s[1..], seen');
      if s[0] !in seen {
        var rest := UniqueFrom(s[1..], seen');
        var r := UniqueFrom(s, seen);
        forall j | 0 <= j < |rest| ensures Less(s[0], rest[j]) {
          assert rest[j] in s[1..] && rest[j] != s[0];
        }
        forall i, j | 0 <= i < j < |r| ensures Less(r[i], r[j]) {
          assert r[j] == rest[j - 1];
          if i > 0 {
            assert r[i] == rest[i - 1];
          }
        }
      }
    }
  }

  /** On a sorted string array, as `.sort().dedupe()` produces, the result is
      strictly ascending. */
  lemma DedupeSorted(s: seq<string>)
    requires Sorted(s)
    ensures StrictlyAscending(Values(Dedupe(Lift(s))))
  {
    DedupeLift(s);
    UniqueFromSorted(s, {});
  }
}
