// The JavaScript `Set` of point indices used by simplicial.js, and its
// `intersect` helper. A JS Set iterates in insertion order and never holds an
// element twice, so it is modelled as a sequence of indices without repeats,
// kept in the order the elements were added.
module IndexSets {

  /** `s` is strictly ascending under `less`. */
  ghost predicate Ascending<T>(s: seq<T>, less: (T, T) -> bool)
  {
    forall a, b :: 0 <= a < b < |s| ==> less(s[a], s[b])
  }

  predicate NatLess(x: nat, y: nat)
  {
    x < y
  }

  /** An ascending sequence of indices: a set whose insertion order is numeric order. */
  ghost predicate Increasing(s: seq<nat>)
  {
    Ascending(s, NatLess)
  }

  /** No element occurs twice. */
  ghost predicate NoDuplicates<T>(s: seq<T>)
  {
    forall a, b :: 0 <= a < b < |s| ==> s[a] != s[b]
  }

  /** Appending keeps a sequence ascending when everything before is below everything after. */
  lemma AscendingAppend<T>(s: seq<T>, t: seq<T>, less: (T, T) -> bool)
    requires Ascending(s, less) && Ascending(t, less)
    requires forall x, y :: x in s && y in t ==> less(x, y)
    ensures Ascending(s + t, less)
  {
    forall a, b | 0 <= a < b < |s + t|
      ensures less((s + t)[a], (s + t)[b])
    {
      if b < |s| {
        assert (s + t)[a] == s[a] && (s + t)[b] == s[b];
      } else if a < |s| {
        assert (s + t)[a] in s && (s + t)[b] in t;
      } else {
        assert (s + t)[a] == t[a - |s|] && (s + t)[b] == t[b - |s|];
      }
    }
  }

  /** A sequence ascending under an irreflexive order repeats nothing. */
  lemma AscendingNoDuplicates<T>(s: seq<T>, less: (T, T) -> bool)
    requires forall x :: !less(x, x)
    requires Ascending(s, less)
    ensures NoDuplicates(s)
  {
    forall a, b | 0 <= a < b < |s|
      ensures s[a] != s[b]
    {
      assert less(s[a], s[b]);
    }
  }

  /** `set.add(x)`: a no-op when `x` is already present, otherwise `x` goes last. */
  function Add(s: seq<nat>, x: nat): (r: seq<nat>)
    ensures forall y :: y in r <==> y in s || y == x
    ensures NoDuplicates(s) ==> NoDuplicates(r)
  {
    if x in s then s else s + [x]
  }

  /**
   * The value `intersect(a, b)` returns: the elements of `a` that `b` also
   * holds, in `a`'s iteration order.
   */
  function Intersection(a: seq<nat>, b: seq<nat>): seq<nat>
  {
    if a == [] then []
    else
      var last := a[|a| - 1];
      Intersection(a[..|a| - 1], b) + (if last in b then [last] else [])
  }

  /** `intersect` yields exactly the common elements. */
  lemma {:induction false} IntersectionMembers(a: seq<nat>, b: seq<nat>)
    ensures forall x :: x in Intersection(a, b) <==> x in a && x in b
  {
    if a != [] {
      IntersectionMembers(a[..|a| - 1], b);
      assert a == a[..|a| - 1] + [a[|a| - 1]];
    }
  }

  /** Iterating an ascending set yields an ascending intersection. */
  lemma {:induction false} IntersectionIncreasing(a: seq<nat>, b: seq<nat>)
    requires Increasing(a)
    ensures Increasing(Intersection(a, b))
  {
    if a != [] {
      var init, last := a[..|a| - 1], a[|a| - 1];
      assert Increasing(init);
      IntersectionIncreasing(init, b);
      IntersectionMembers(init, b);
      forall x | x in Intersection(init, b)
        ensures NatLess(x, last)
      {
        var k :| 0 <= k < |init| && init[k] == x;
        assert a[k] == x;
      }
      AscendingAppend(Intersection(init, b), if last in b then [last] else [], NatLess);
    }
  }

  /**
   * Swapping the operands may change the order in which the common elements
   * come out, but not which elements they are.
   */
  lemma IntersectionOperandsCommute(a: seq<nat>, b: seq<nat>)
    ensures forall x :: x in Intersection(a, b) <==> x in Intersection(b, a)
  {
    IntersectionMembers(a, b);
    IntersectionMembers(b, a);
  }

  /**
   * `intersect(a, b)`: walks `a` and adds each element `b` has to a fresh set.
   * The operand swap guarded by `b.length < a.length` never happens, because
   * a Set has no `length` property and `undefined < undefined` is false; `a`
   * is always the set iterated.
   */
  method Intersect(a: seq<nat>, b: seq<nat>) returns (intersection: seq<nat>)
    requires NoDuplicates(a)
    ensures intersection == Intersection(a, b)
    ensures forall x :: x in intersection <==> x in a && x in b
    ensures NoDuplicates(intersection)
  {
    intersection := [];
    for t := 0 to |a|
      invariant intersection == Intersection(a[..t], b)
      invariant forall x :: x in intersection ==> x in a[..t]
      invariant NoDuplicates(intersection)
    {
      var x := a[t];
      assert a[..t + 1][..t] == a[..t];
      if x in b {
        assert x !in a[..t];
        intersection := Add(intersection, x);
      }
    }
    assert a[..|a|] == a;
    IntersectionMembers(a, b);
  }
}
