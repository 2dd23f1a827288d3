/**
 * Folds over lists used by the extractor: concatenating what a function
 * gives for each element; filling a dictionary from the key/value pairs a
 * function finds in the elements, later pairs winning; the distinct elements
 * in order of first occurrence; and the elements that belong to a set.
 */
module Lists {
  import opened Wrappers

  /** `f(s[0]) + f(s[1]) + ... + f(s[|s| - 1])`, built from the end. */
  function FlatMap<T, U>(f: T -> seq<U>, s: seq<T>): seq<U> {
    if s == [] then [] else FlatMap(f, s[..|s| - 1]) + f(s[|s| - 1])
  }

  /** Appending one element appends what `f` gives for it. */
  lemma FlatMapSnoc<T, U>(f: T -> seq<U>, s: seq<T>, x: T)
    ensures FlatMap(f, s + [x]) == FlatMap(f, s) + f(x)
  {
    assert (s + [x])[..|s|] == s;
  }

  /** The flat map of a concatenation is the concatenation of the flat maps. */
  lemma {:induction false} FlatMapAppend<T, U>(f: T -> seq<U>, a: seq<T>, b: seq<T>)
    ensures FlatMap(f, a + b) == FlatMap(f, a) + FlatMap(f, b)
  {
    if b == [] {
      assert a + b == a;
    } else {
      var b', x := b[..|b| - 1], b[|b| - 1];
      assert b == b' + [x];
      assert a + b == (a + b') + [x];
      FlatMapAppend(f, a, b');
      FlatMapSnoc(f, a + b', x);
      FlatMapSnoc(f, b', x);
      assert FlatMap(f, a) + FlatMap(f, b') + f(x) == FlatMap(f, a) + (FlatMap(f, b') + f(x));
    }
  }

  /** One more element of a prefix adds what `f` gives for it at the end. */
  lemma FlatMapPrefixStep<T, U>(f: T -> seq<U>, s: seq<T>, i: nat)
    requires i < |s|
    ensures FlatMap(f, s[..i + 1]) == FlatMap(f, s[..i]) + f(s[i])
  {
    assert s[..i + 1][..i] == s[..i];
  }

  /** An element between two lists contributes exactly `f` of it, between theirs. */
  lemma FlatMapSplit<T, U>(f: T -> seq<U>, before: seq<T>, x: T, after: seq<T>)
    ensures FlatMap(f, before + [x] + after) == FlatMap(f, before) + f(x) + FlatMap(f, after)
  {
    FlatMapAppend(f, before + [x], after);
    FlatMapSnoc(f, before, x);
  }

  lemma SplitAt<T>(s: seq<T>, i: nat)
    requires i < |s|
    ensures s == s[..i] + [s[i]] + s[i + 1..]
  {
  }

  /** Element `i` contributes exactly `f(s[i])`, between the elements before and after it. */
  lemma FlatMapAround<T, U>(f: T -> seq<U>, s: seq<T>, i: nat)
    requires i < |s|
    ensures FlatMap(f, s) == FlatMap(f, s[..i]) + f(s[i]) + FlatMap(f, s[i + 1..])
  {
    SplitAt(s, i);
    FlatMapSplit(f, s[..i], s[i], s[i + 1..]);
  }

  /** The flat map is empty exactly when `f` gives nothing for every element. */
  lemma {:induction false} FlatMapEmptyIff<T, U>(f: T -> seq<U>, s: seq<T>)
    ensures FlatMap(f, s) == [] <==> forall i :: 0 <= i < |s| ==> f(s[i]) == []
  {
    if s != [] {
      var init := s[..|s| - 1];
      FlatMapEmptyIff(f, init);
      assert forall i :: 0 <= i < |init| ==> init[i] == s[i];
    }
  }

  /** A prefix one element longer is the prefix with that element appended. */
  lemma TakeStep<T>(s: seq<T>, i: nat)
    requires i < |s|
    ensures s[..i + 1] == s[..i] + [s[i]]
  {
  }

  /**
   * The dictionary built by visiting `s` in order and, for each element
   * where `f` finds a pair `(k, v)`, setting entry `k` to `v`.
   */
  function Assign<T, K(==), V>(f: T -> Option<(K, V)>, s: seq<T>): map<K, V> {
    if s == [] then map[]
    else
      var earlier := Assign(f, s[..|s| - 1]);
      match f(s[|s| - 1])
      case None => earlier
      case Some(p) => earlier[p.0 := p.1]
  }

  /** Element `i` of `s` gives a pair with key `k`. */
  ghost predicate Declares<T, K, V>(f: T -> Option<(K, V)>, s: seq<T>, i: int, k: K) {
    0 <= i < |s| && f(s[i]).Some? && f(s[i]).value.0 == k
  }

  /** One more element of a prefix sets the entry it declares, if any. */
  lemma AssignPrefixStep<T, K, V>(f: T -> Option<(K, V)>, s: seq<T>, i: nat)
    requires i < |s|
    ensures Assign(f, s[..i + 1]) ==
              match f(s[i]) case None => Assign(f, s[..i]) case Some(p) => Assign(f, s[..i])[p.0 := p.1]
  {
    assert s[..i + 1][..i] == s[..i];
  }

  /** A key has an entry exactly when some element declares it. */
  lemma {:induction false} AssignDomain<T, K, V>(f: T -> Option<(K, V)>, s: seq<T>, k: K)
    ensures k in Assign(f, s) <==> exists i :: Declares(f, s, i, k)
  {
    if s != [] {
      var init := s[..|s| - 1];
      AssignDomain(f, init, k);
      if exists i :: Declares(f, init, i, k) {
        var i :| Declares(f, init, i, k);
        assert Declares(f, s, i, k);
      }
      if exists i :: Declares(f, s, i, k) {
        var i :| Declares(f, s, i, k);
        if i < |init| {
          assert Declares(f, init, i, k);
        }
      }
      if k in Assign(f, s) && !(exists i :: Declares(f, init, i, k)) {
        assert Declares(f, s, |init|, k);
      }
    }
  }

  /** The entry of a key is the value from the last element that declares it. */
  lemma {:induction false} AssignLastWins<T, K, V>(f: T -> Option<(K, V)>, s: seq<T>, i: nat, k: K)
    requires Declares(f, s, i, k)
    requires forall j :: i < j < |s| ==> !Declares(f, s, j, k)
    ensures k in Assign(f, s) && Assign(f, s)[k] == f(s[i]).value.1
  {
    var init := s[..|s| - 1];
    if i < |init| {
      assert Declares(f, init, i, k);
      forall j | i < j < |init| ensures !Declares(f, init, j, k) {
        assert !Declares(f, s, j, k);
      }
      AssignLastWins(f, init, i, k);
      assert !Declares(f, s, |init|, k);
    }
  }

  /** When every element that declares `k` carries the same value, that value is the entry. */
  lemma {:induction false} AssignUniform<T, K, V>(f: T -> Option<(K, V)>, s: seq<T>, k: K, v: V)
    requires forall i :: Declares(f, s, i, k) ==> f(s[i]).value.1 == v
    requires k in Assign(f, s)
    ensures Assign(f, s)[k] == v
  {
    var init := s[..|s| - 1];
    if !Declares(f, s, |init|, k) {
      forall i | Declares(f, init, i, k) ensures f(init[i]).value.1 == v {
        assert Declares(f, s, i, k);
      }
      AssignUniform(f, init, k, v);
    }
  }

  /** `Some` of what `f` gives for every element, in order, or `None` when `f` fails on any. */
  function MapAll<T, U>(f: T -> Option<U>, s: seq<T>): Option<seq<U>> {
    if s == [] then Some([])
    else
      var earlier := MapAll(f, s[..|s| - 1]);
      var last := f(s[|s| - 1]);
      if earlier.Some? && last.Some? then Some(earlier.value + [last.value]) else None
  }

  /** `MapAll` succeeds exactly when `f` succeeds on every element, and keeps every result in place. */
  lemma {:induction false} MapAllMeaning<T, U>(f: T -> Option<U>, s: seq<T>)
    ensures MapAll(f, s).Some? <==> forall k :: 0 <= k < |s| ==> f(s[k]).Some?
    ensures MapAll(f, s).Some? ==>
              |MapAll(f, s).value| == |s| && forall k :: 0 <= k < |s| ==> f(s[k]) == Some(MapAll(f, s).value[k])
  {
    if s != [] {
      var init := s[..|s| - 1];
      MapAllMeaning(f, init);
      assert forall k :: 0 <= k < |init| ==> init[k] == s[k];
    }
  }

  /** Every element of `s` is a key of `m`. */
  ghost predicate KeysIn<K, V>(s: seq<K>, m: map<K, V>) {
    forall k :: k in s ==> k in m
  }

  lemma KeysInPrefix<K, V>(s: seq<K>, m: map<K, V>, i: nat)
    requires KeysIn(s, m) && i <= |s|
    ensures KeysIn(s[..i], m)
  {
    assert forall k :: k in s[..i] ==> k in s;
  }

  /** No element occurs twice. */
  ghost predicate NoDuplicates<T>(s: seq<T>) {
    forall i, j :: 0 <= i < j < |s| ==> s[i] != s[j]
  }

  /** Index of the first occurrence of `x` in `s`. */
  function FirstIndex<T(==)>(s: seq<T>, x: T): (r: nat)
    requires x in s
    ensures r < |s| && s[r] == x
    ensures forall k :: 0 <= k < r ==> s[k] != x
  {
    var init := s[..|s| - 1];
    if x in init then
      var r := FirstIndex(init, x);
      assert s[r] == init[r];
      r
    else
      assert forall k :: 0 <= k < |init| ==> init[k] == s[k];
      |s| - 1
  }

  /** Growing the list does not move the first occurrence of an element already there. */
  lemma FirstIndexSnoc<T>(s: seq<T>, x: T, y: T)
    requires y in s
    ensures FirstIndex(s + [x], y) == FirstIndex(s, y)
  {
    var r := FirstIndex(s + [x], y);
    var q := FirstIndex(s, y);
    assert (s + [x])[q] == y;
    assert r <= q;
    assert s[r] == (s + [x])[r];
  }

  /** Every element of `d` occurs in `s`, and they stand in `d` in the order they first occur in `s`. */
  ghost predicate InFirstOccurrenceOrder<T>(s: seq<T>, d: seq<T>) {
    (forall i :: 0 <= i < |d| ==> d[i] in s) &&
    forall i, j :: 0 <= i < j < |d| ==> FirstIndex(s, d[i]) < FirstIndex(s, d[j])
  }

  /** The distinct elements of `s`, each at the place it first occurs. */
  function Distinct<T(==)>(s: seq<T>): seq<T> {
    if s == [] then []
    else
      var earlier := Distinct(s[..|s| - 1]);
      if s[|s| - 1] in s[..|s| - 1] then earlier else earlier + [s[|s| - 1]]
  }

  /** A new element goes to the end; a repeated one changes nothing. */
  lemma DistinctSnoc<T>(s: seq<T>, x: T)
    ensures Distinct(s + [x]) == if x in s then Distinct(s) else Distinct(s) + [x]
  {
    assert (s + [x])[..|s|] == s;
  }

  /** `Distinct` keeps every element and adds none. */
  lemma {:induction false} DistinctElements<T>(s: seq<T>, x: T)
    ensures x in Distinct(s) <==> x in s
  {
    if s != [] {
      var init := s[..|s| - 1];
      DistinctElements(init, x);
      assert s == init + [s[|s| - 1]];
    }
  }

  /**
   * `Distinct` has no repeated element, and its elements stand in the order
   * of their first occurrences in `s`.
   */
  lemma {:induction false} DistinctInFirstOrder<T>(s: seq<T>)
    ensures NoDuplicates(Distinct(s))
    ensures InFirstOccurrenceOrder(s, Distinct(s))
  {
    if s != [] {
      var init, x := s[..|s| - 1], s[|s| - 1];
      var d := Distinct(init);
      DistinctInFirstOrder(init);
      assert s == init + [x];
      forall y | y in d ensures y in init && FirstIndex(s, y) == FirstIndex(init, y) {
        DistinctElements(init, y);
        FirstIndexSnoc(init, x, y);
      }
      if x !in init {
        DistinctSnocNew(init, x);
      }
    }
  }

  /** A new last element joins the distinct elements at the end, after all the others. */
  lemma DistinctSnocNew<T>(init: seq<T>, x: T)
    requires x !in init
    requires forall y :: y in Distinct(init) ==> y in init && FirstIndex(init + [x], y) == FirstIndex(init, y)
    ensures Distinct(init + [x]) == Distinct(init) + [x]
    ensures FirstIndex(init + [x], x) == |init|
    ensures forall i :: 0 <= i < |Distinct(init)| ==>
              Distinct(init)[i] != x && FirstIndex(init + [x], Distinct(init)[i]) < FirstIndex(init + [x], x)
  {
    var s, d := init + [x], Distinct(init);
    DistinctElements(init, x);
    assert s[..|s| - 1] == init && s[|s| - 1] == x;
    assert FirstIndex(s, x) == |init|;
    forall i | 0 <= i < |d| ensures d[i] != x && FirstIndex(s, d[i]) < FirstIndex(s, x) {
      assert d[i] in d;
    }
  }

  /** The elements of `s` that belong to `keys`, in the order of `s`. */
  function Restrict<T(==)>(s: seq<T>, keys: set<T>): seq<T> {
    if s == [] then []
    else
      Restrict(s[..|s| - 1], keys) + (if s[|s| - 1] in keys then [s[|s| - 1]] else [])
  }

  /** An element is kept exactly when it is in the list and in the set. */
  lemma {:induction false} RestrictElements<T>(s: seq<T>, keys: set<T>, x: T)
    ensures x in Restrict(s, keys) <==> x in s && x in keys
  {
    if s != [] {
      var init := s[..|s| - 1];
      RestrictElements(init, keys, x);
      assert s == init + [s[|s| - 1]];
    }
  }

  /**
   * Restricting a list without repetitions keeps it without repetitions and
   * keeps the order of the list.
   */
  lemma {:induction false} RestrictKeepsOrder<T>(s: seq<T>, keys: set<T>)
    requires NoDuplicates(s)
    ensures NoDuplicates(Restrict(s, keys))
    ensures InFirstOccurrenceOrder(s, Restrict(s, keys))
  {
    if s != [] {
      var init, x := s[..|s| - 1], s[|s| - 1];
      var r := Restrict(init, keys);
      assert NoDuplicates(init);
      RestrictKeepsOrder(init, keys);
      assert s == init + [x];
      assert x !in init;
      forall y | y in r ensures y in init && FirstIndex(s, y) == FirstIndex(init, y) {
        RestrictElements(init, keys, y);
        FirstIndexSnoc(init, x, y);
      }
      if x in keys {
        assert FirstIndex(s, x) == |init|;
        assert Restrict(s, keys) == r + [x];
        forall i | 0 <= i < |r| ensures r[i] != x && FirstIndex(s, r[i]) < FirstIndex(s, x) {
          assert r[i] in r;
        }
      }
    }
  }
}
