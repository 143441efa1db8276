/** The thread-safe string set of `internal/pkg/set`. The Go type wraps a
    map behind a read-write lock; here the lock disappears and the map
    becomes a sequence without repeats, whose order plays the part of Go's
    unspecified map iteration order. `Elements` is what the set means. */
module StringSet {

  predicate Distinct(xs: seq<string>) {
    forall i, j | 0 <= i < j < |xs| :: xs[i] != xs[j]
  }

  /** A set: each member stored exactly once. */
  type Set = xs: seq<string> | Distinct(xs) witness []

  /** The members of `s`. */
  function Elements(s: Set): set<string> {
    set x | x in s
  }

  /** The members of an argument list. */
  function ArgSet(xs: seq<string>): set<string> {
    set x | x in xs
  }

  /** A list without repeats has as many distinct members as entries. */
  lemma {:induction false} DistinctCardinality(xs: seq<string>)
    requires Distinct(xs)
    ensures |ArgSet(xs)| == |xs|
    decreases |xs|
  {
    if |xs| > 0 {
      var init := xs[..|xs| - 1];
      DistinctCardinality(init);
      assert ArgSet(xs) == ArgSet(init) + {xs[|xs| - 1]};
      assert xs[|xs| - 1] !in ArgSet(init);
    }
  }

  /** `New(elements...)`: a fresh set holding the given elements. */
  function New(xs: seq<string>): (s: Set)
    ensures Elements(s) == ArgSet(xs)
    ensures Size(s) == |ArgSet(xs)|
  {
    Add([], xs)
  }

  /** One element into the map. */
  function Put(s: Set, x: string): (r: Set)
    ensures Elements(r) == Elements(s) + {x}
  {
    if x in s then s else s + [x]
  }

  /** `Add(elements...)`: afterwards every given element is a member and
      nothing else has changed; with no elements it returns at once. */
  function Add(s: Set, xs: seq<string>): (r: Set)
    ensures Elements(r) == Elements(s) + ArgSet(xs)
    ensures |xs| == 0 ==> r == s
    decreases |xs|
  {
    if |xs| == 0 then s
    else
      assert ArgSet(xs) == {xs[0]} + ArgSet(xs[1..]);
      Add(Put(s, xs[0]), xs[1..])
  }

  /** `delete(s.m, x)`. */
  function Delete(s: Set, x: string): (r: Set)
    ensures Elements(r) == Elements(s) - {x}
    decreases |s|
  {
    if |s| == 0 then s
    else
      var tail: Set := s[1..];
      var t := Delete(tail, x);
      if s[0] == x then t
      else
        assert Elements(s) == {s[0]} + Elements(tail);
        assert s[0] !in Elements(tail);
        assert s[0] !in Elements(t);
        var r := [s[0]] + t;
        assert Elements(r) == {s[0]} + Elements(t);
        r
  }

  /** `Remove(elements...)`: deletes exactly the given elements. */
  function Remove(s: Set, xs: seq<string>): (r: Set)
    ensures Elements(r) == Elements(s) - ArgSet(xs)
    ensures |xs| == 0 ==> r == s
    decreases |xs|
  {
    if |xs| == 0 then s
    else
      assert ArgSet(xs) == {xs[0]} + ArgSet(xs[1..]);
      Remove(Delete(s, xs[0]), xs[1..])
  }

  /** The loop of `Has`: stops at the first element that is not a member. */
  function AllMembers(s: Set, xs: seq<string>): (has: bool)
    ensures has <==> forall i | 0 <= i < |xs| :: xs[i] in Elements(s)
    decreases |xs|
  {
    if |xs| == 0 then true
    else if xs[0] !in s then false
    else AllMembers(s, xs[1..])
  }

  /** `Has(elements...)`: true exactly when some elements are given and all
      of them are members. */
  function Has(s: Set, xs: seq<string>): (has: bool)
    ensures has <==> |xs| > 0 && ArgSet(xs) <= Elements(s)
  {
    |xs| > 0 && AllMembers(s, xs)
  }

  /** `Size()`: the number of distinct members. */
  function Size(s: Set): (n: nat)
    ensures n == |Elements(s)|
  {
    DistinctCardinality(s);
    |s|
  }

  /** `Clear()`: a set with no members. */
  function Clear(s: Set): (r: Set)
    ensures Elements(r) == {}
    ensures Size(r) == 0
  {
    []
  }

  /** `StringSlice()`: every member exactly once, in the map's order. */
  function StringSlice(s: Set): (r: seq<string>)
    ensures |r| == Size(s)
    ensures ArgSet(r) == Elements(s)
    ensures Distinct(r)
  {
    s
  }

  /** Adding a member that is already present does not change the size. */
  lemma AddPresentKeepsSize(s: Set, x: string)
    requires Has(s, [x])
    ensures Size(Add(s, [x])) == Size(s)
  {
    assert ArgSet([x]) == {x};
  }

  /** Removing an element that is absent does not change the size. */
  lemma RemoveAbsentKeepsSize(s: Set, x: string)
    requires !Has(s, [x])
    ensures Size(Remove(s, [x])) == Size(s)
  {
    assert ArgSet([x]) == {x};
  }

  /** Deleting an absent element gives back the same set. */
  lemma {:induction false} DeleteAbsent(s: Set, x: string)
    requires x !in s
    ensures Delete(s, x) == s
    decreases |s|
  {
    if |s| > 0 {
      var tail: Set := s[1..];
      DeleteAbsent(tail, x);
      assert s == [s[0]] + tail;
    }
  }

  /** Removing an absent element gives back the same set, order included. */
  lemma RemoveAbsentIsIdentity(s: Set, x: string)
    requires !Has(s, [x])
    ensures Remove(s, [x]) == s
  {
    assert ArgSet([x]) == {x};
    DeleteAbsent(s, x);
  }

  /** Removing a member lowers the size by one. */
  lemma RemovePresentShrinks(s: Set, x: string)
    requires Has(s, [x])
    ensures Size(Remove(s, [x])) == Size(s) - 1
    ensures !Has(Remove(s, [x]), [x])
  {
    assert ArgSet([x]) == {x};
  }

  /** After Clear nothing is a member. */
  lemma ClearForgetsAll(s: Set, x: string)
    ensures !Has(Clear(s), [x])
  {
  }

  /** `New` with no arguments is empty; duplicates among the arguments collapse. */
  lemma NewSizes()
    ensures Size(New([])) == 0
    ensures Size(New(["a", "b", "c", "d"])) == 4
    ensures Size(New(["a", "a", "b"])) == 2
  {
    var abcd := ["a", "b", "c", "d"];
    assert Distinct(abcd) by {
      forall i, j | 0 <= i < j < 4 ensures abcd[i] != abcd[j] {
        assert abcd[i][0] != abcd[j][0];
      }
    }
    DistinctCardinality(abcd);
    var ab := ["a", "b"];
    assert Distinct(ab) by { assert ab[0][0] != ab[1][0]; }
    DistinctCardinality(ab);
    assert ArgSet(["a", "a", "b"]) == ArgSet(ab);
  }
}
