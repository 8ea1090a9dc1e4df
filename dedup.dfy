/** The "first one wins" de-duplication both diagram builders perform with a
    `Set` of keys: walk a sequence, skip an element whose key was seen before,
    otherwise keep it and remember its key. */
module Dedup {

  /** The keys of all elements of `xs`. */
  function KeySet<T>(xs: seq<T>, key: T -> string): set<string>
    decreases |xs|
  {
    if xs == [] then {} else KeySet(xs[..|xs| - 1], key) + {key(xs[|xs| - 1])}
  }

  /** The key set holds exactly the keys of the elements. */
  lemma {:induction false} KeySetIff<T>(xs: seq<T>, key: T -> string)
    ensures forall k :: k in KeySet(xs, key) <==> exists j :: 0 <= j < |xs| && key(xs[j]) == k
    decreases |xs|
  {
    if xs != [] {
      var init := xs[..|xs| - 1];
      KeySetIff(init, key);
      assert forall j :: 0 <= j < |init| ==> init[j] == xs[j];
    }
  }

  /** No element before `xs[j]` has its key. */
  predicate IsFirst<T>(xs: seq<T>, key: T -> string, j: nat)
    requires j < |xs|
  {
    forall i :: 0 <= i < j ==> key(xs[i]) != key(xs[j])
  }

  /** The elements of `xs` that are first with their key, in their original order. */
  function Firsts<T>(xs: seq<T>, key: T -> string): seq<T>
    decreases |xs|
  {
    if xs == [] then []
    else
      var init := xs[..|xs| - 1];
      var x := xs[|xs| - 1];
      if key(x) in KeySet(init, key) then Firsts(init, key) else Firsts(init, key) + [x]
  }

  /** A prefix one longer is the prefix with one more element. */
  lemma PrefixSnoc<T>(xs: seq<T>, i: nat)
    requires i < |xs|
    ensures xs[..i + 1] == xs[..i] + [xs[i]]
  {
  }

  /** One more element: kept exactly when its key is new. */
  lemma FirstsSnoc<T>(xs: seq<T>, x: T, key: T -> string)
    ensures Firsts(xs + [x], key) == if key(x) in KeySet(xs, key) then Firsts(xs, key) else Firsts(xs, key) + [x]
  {
    assert (xs + [x])[..|xs|] == xs;
  }

  /** One more element adds its key. */
  lemma KeySetSnoc<T>(xs: seq<T>, x: T, key: T -> string)
    ensures KeySet(xs + [x], key) == KeySet(xs, key) + {key(x)}
  {
    assert (xs + [x])[..|xs|] == xs;
  }

  /** De-duplication loses no key: every key of the input is the key of a kept element. */
  lemma {:induction false} FirstsKeys<T>(xs: seq<T>, key: T -> string)
    ensures KeySet(Firsts(xs, key), key) == KeySet(xs, key)
    decreases |xs|
  {
    if xs != [] {
      var init := xs[..|xs| - 1];
      var x := xs[|xs| - 1];
      assert xs == init + [x];
      FirstsKeys(init, key);
      if key(x) !in KeySet(init, key) {
        KeySetSnoc(Firsts(init, key), x, key);
      }
    }
  }

  /** One more element with key `k`, where `seen` holds the keys so far. */
  lemma FirstsSnocStep<T>(xs: seq<T>, x: T, key: T -> string, seen: set<string>, k: string)
    requires seen == KeySet(xs, key) && k == key(x)
    ensures k in seen ==> KeySet(xs + [x], key) == seen && Firsts(xs + [x], key) == Firsts(xs, key)
    ensures k !in seen ==> KeySet(xs + [x], key) == seen + {k} && Firsts(xs + [x], key) == Firsts(xs, key) + [x]
  {
    FirstsSnoc(xs, x, key);
    KeySetSnoc(xs, x, key);
    if k in seen {
      assert seen + {k} == seen;
    }
  }

  /** One step of the de-duplicating loop: `seen` holds the keys of the first `i`
      elements and `k` is the key of the next one. */
  lemma FirstsStep<T>(xs: seq<T>, i: nat, key: T -> string, seen: set<string>, k: string)
    requires i < |xs|
    requires seen == KeySet(xs[..i], key) && k == key(xs[i])
    ensures seen + {k} == KeySet(xs[..i + 1], key)
    ensures k in seen ==> seen == KeySet(xs[..i + 1], key) && Firsts(xs[..i + 1], key) == Firsts(xs[..i], key)
    ensures k !in seen ==> Firsts(xs[..i + 1], key) == Firsts(xs[..i], key) + [xs[i]]
  {
    PrefixSnoc(xs, i);
    FirstsSnoc(xs[..i], xs[i], key);
    KeySetSnoc(xs[..i], xs[i], key);
    if k in seen {
      assert seen + {k} == seen;
    }
  }

  /** The kept elements have pairwise distinct keys. */
  lemma {:induction false} FirstsDistinct<T>(xs: seq<T>, key: T -> string)
    ensures var r := Firsts(xs, key);
      forall i, j :: 0 <= i < j < |r| ==> key(r[i]) != key(r[j])
    decreases |xs|
  {
    if xs != [] {
      var init := xs[..|xs| - 1];
      var x := xs[|xs| - 1];
      FirstsDistinct(init, key);
      if key(x) !in KeySet(init, key) {
        var p := Firsts(init, key);
        FirstsKeys(init, key);
        KeySetIff(p, key);
        assert forall i :: 0 <= i < |p| ==> key(p[i]) != key(x);
      }
    }
  }

  /** The distinctness of two given kept elements. */
  lemma FirstsDistinctAt<T>(xs: seq<T>, key: T -> string, i: nat, j: nat)
    requires i < j < |Firsts(xs, key)|
    ensures key(Firsts(xs, key)[i]) != key(Firsts(xs, key)[j])
  {
    FirstsDistinct(xs, key);
  }

  /** `y` occurs in `xs` at a position where its key appears first. */
  ghost predicate KeptAt<T>(xs: seq<T>, key: T -> string, y: T) {
    exists j :: 0 <= j < |xs| && xs[j] == y && IsFirst(xs, key, j)
  }

  /** One more element `x` is kept exactly when its key is new; earlier positions are unaffected. */
  lemma KeptAtSnoc<T>(init: seq<T>, x: T, key: T -> string, y: T)
    ensures KeptAt(init + [x], key, y) <==> KeptAt(init, key, y) || (y == x && key(x) !in KeySet(init, key))
  {
    var xs := init + [x];
    var n := |init|;
    KeySetIff(init, key);
    if KeptAt(init, key, y) {
      var j :| 0 <= j < n && init[j] == y && IsFirst(init, key, j);
      assert xs[j] == y && IsFirst(xs, key, j);
    }
    if y == x && key(x) !in KeySet(init, key) {
      assert xs[n] == y && IsFirst(xs, key, n);
    }
    if KeptAt(xs, key, y) {
      var j :| 0 <= j < |xs| && xs[j] == y && IsFirst(xs, key, j);
      if j < n {
        assert IsFirst(init, key, j) by {
          forall i | 0 <= i < j ensures key(init[i]) != key(init[j]) {
            assert init[i] == xs[i] && init[j] == xs[j];
          }
        }
        assert init[j] == y;
      } else {
        assert key(x) !in KeySet(init, key) by {
          forall i | 0 <= i < |init| ensures key(init[i]) != key(x) {
            assert init[i] == xs[i];
          }
        }
      }
    }
  }

  /** An element is kept exactly when it occurs at a position where its key appears first. */
  lemma {:induction false} FirstsIff<T>(xs: seq<T>, key: T -> string, y: T)
    ensures y in Firsts(xs, key) <==> KeptAt(xs, key, y)
    decreases |xs|
  {
    if xs != [] {
      var init := xs[..|xs| - 1];
      var x := xs[|xs| - 1];
      assert xs == init + [x];
      FirstsIff(init, key, y);
      KeptAtSnoc(init, x, key, y);
    }
  }
}
