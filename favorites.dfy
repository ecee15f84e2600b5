/**
 The favourites list of the storefront's root store, as values: the sequence
 operations that the `toggleFavorite` mutation and the `isFavorite` getter are
 built from (`indexOf`, `includes`, `splice(i, 1)`, `push`), the list that a
 toggle produces, and what toggling does to membership, order and duplicates.
 Product ids are any type with equality; JavaScript's strict equality and
 SameValueZero differ only on NaN, which is not modelled.
 */
module Favorites {

  /** No id occurs twice in the list. */
  predicate NoDup<T(==)>(s: seq<T>)
  {
    forall i, j :: 0 <= i < j < |s| ==> s[i] != s[j]
  }

  /** `s.indexOf(x)`: the position of the first occurrence of `x`, or -1 when there is none. */
  function IndexOf<T(==)>(s: seq<T>, x: T): (r: int)
    ensures -1 <= r < |s|
    ensures r == -1 <==> x !in s
    ensures 0 <= r ==> s[r] == x && forall j :: 0 <= j < r ==> s[j] != x
  {
    if s == [] then -1
    else if s[0] == x then 0
    else
      var k := IndexOf(s[1..], x);
      if k == -1 then -1 else k + 1
  }

  /** `s.includes(x)`: a front-to-back scan for an element equal to `x`. */
  function Includes<T(==)>(s: seq<T>, x: T): (r: bool)
    ensures r <==> exists i :: 0 <= i < |s| && s[i] == x
  {
    if s == [] then false
    else if s[0] == x then true
    else
      var found := Includes(s[1..], x);
      assert found ==> exists i :: 0 <= i < |s| && s[i] == x by {
        if found {
          var i :| 0 <= i < |s[1..]| && s[1..][i] == x;
          assert s[i + 1] == x;
        }
      }
      found
  }

  /** `s.splice(i, 1)`: the element at position `i` is taken out; those before it
      keep their positions and those after it move one place to the front. */
  function RemoveAt<T>(s: seq<T>, i: nat): (r: seq<T>)
    requires i < |s|
    ensures |r| == |s| - 1
    ensures forall j :: 0 <= j < i ==> r[j] == s[j]
    ensures forall j :: i <= j < |r| ==> r[j] == s[j + 1]
  {
    s[..i] + s[i + 1..]
  }

  /** Reference definition of "drop the first occurrence of `x`", by recursion
      on the list rather than by position. */
  function RemoveFirst<T(==)>(s: seq<T>, x: T): (r: seq<T>)
    ensures x in s ==> |r| == |s| - 1
    ensures x !in s ==> r == s
  {
    if s == [] then []
    else if s[0] == x then s[1..]
    else [s[0]] + RemoveFirst(s[1..], x)
  }

  /** Dropping the first occurrence takes exactly one copy of `x` out of the
      multiset of elements, and nothing else. */
  lemma {:induction false} RemoveFirstMultiset<T>(s: seq<T>, x: T)
    ensures multiset(RemoveFirst(s, x)) == multiset(s) - multiset{x}
  {
    if s != [] {
      assert s == [s[0]] + s[1..];
      if s[0] != x {
        RemoveFirstMultiset(s[1..], x);
      }
    }
  }

  /** The favourites list after `toggleFavorite(x)`: appended at the end when
      absent, otherwise spliced out at the position `indexOf` reports. */
  function Toggle<T(==)>(s: seq<T>, x: T): (r: seq<T>)
    ensures x !in s ==> r == s + [x]
    ensures x in s ==> r == RemoveFirst(s, x)
  {
    var index := IndexOf(s, x);
    if index == -1 then s + [x]
    else
      SpliceAtIndexOfIsRemoveFirst(s, x);
      RemoveAt(s, index)
  }

  /** Splicing out at the index `indexOf` finds is exactly dropping the first occurrence. */
  lemma {:induction false} SpliceAtIndexOfIsRemoveFirst<T>(s: seq<T>, x: T)
    requires x in s
    ensures RemoveAt(s, IndexOf(s, x)) == RemoveFirst(s, x)
  {
    if s[0] == x {
      assert RemoveAt(s, 0) == s[1..];
    } else {
      IndexOfTail(s, x);
      SpliceAtIndexOfIsRemoveFirst(s[1..], x);
      RemoveAtTail(s, IndexOf(s[1..], x));
    }
  }

  /** Past a head that differs from `x`, `indexOf` searches the tail.
      (The body only spells the step out; Dafny also finds it alone.) */
  lemma IndexOfTail<T>(s: seq<T>, x: T)
    requires x in s && s[0] != x
    ensures x in s[1..] && IndexOf(s, x) == IndexOf(s[1..], x) + 1
  {
    var i :| 0 <= i < |s| && s[i] == x;
    assert s[1..][i - 1] == x;
  }

  /** Splicing past the head is splicing the tail one position earlier.
      (The body only spells the step out; Dafny also finds it alone.) */
  lemma RemoveAtTail<T>(s: seq<T>, k: nat)
    requires k + 1 < |s|
    ensures RemoveAt(s, k + 1) == [s[0]] + RemoveAt(s[1..], k)
  {
    assert s[..k + 1] == [s[0]] + s[1..][..k];
    assert s[k + 2..] == s[1..][k + 1..];
  }

  /** A toggle adds one copy of an absent id to the multiset of elements, or
      takes one copy of a present id out of it. */
  lemma ToggleMultiset<T>(s: seq<T>, x: T)
    ensures multiset(Toggle(s, x)) == if x in s then multiset(s) - multiset{x} else multiset(s) + multiset{x}
  {
    RemoveFirstMultiset(s, x);
  }

  /** When `x` is present, the toggle removes the element at its first
      position and keeps every other element, in order. */
  lemma TogglePresentRemovesFirstOccurrence<T>(s: seq<T>, x: T)
    requires x in s
    ensures exists i :: 0 <= i < |s| && s[i] == x && (forall j :: 0 <= j < i ==> s[j] != x) && Toggle(s, x) == s[..i] + s[i + 1..]
  {
    var i := IndexOf(s, x);
    SpliceAtIndexOfIsRemoveFirst(s, x);
    assert Toggle(s, x) == s[..i] + s[i + 1..];
  }

  /** A toggle never changes whether any other id is in the list.
      (The body explains the proof through the multiset; Dafny also finds it alone.) */
  lemma ToggleKeepsOthers<T>(s: seq<T>, x: T)
    ensures forall y :: y != x ==> (y in Toggle(s, x) <==> y in s)
  {
    ToggleMultiset(s, x);
    forall y | y != x
      ensures y in Toggle(s, x) <==> y in s
    {
      assert y in multiset(Toggle(s, x)) <==> y in multiset(s);
    }
  }

  /** On a list without duplicates the toggle keeps the list duplicate-free and
      flips the membership of the toggled id. (The body explains the proof
      position by position and keeps it cheap; Dafny can also find it alone.) */
  lemma ToggleFlipsWithoutDuplicates<T>(s: seq<T>, x: T)
    requires NoDup(s)
    ensures NoDup(Toggle(s, x))
    ensures x in Toggle(s, x) <==> x !in s
  {
    if x in s {
      var i := IndexOf(s, x);
      var r := Toggle(s, x);
      SpliceAtIndexOfIsRemoveFirst(s, x);
      assert r == RemoveAt(s, i);
      forall j, k | 0 <= j < k < |r|
        ensures r[j] != r[k]
      {
        var j' := if j < i then j else j + 1;
        var k' := if k < i then k else k + 1;
        assert r[j] == s[j'] && r[k] == s[k'] && j' < k';
      }
      forall j | 0 <= j < |r|
        ensures r[j] != x
      {
        var j' := if j < i then j else j + 1;
        assert r[j] == s[j'] && j' != i;
      }
    }
  }

  /** The toggled id's membership flips whenever it occurs at most once, even
      if other ids are duplicated. */
  lemma ToggleFlipsAtMostOnce<T>(s: seq<T>, x: T)
    requires multiset(s)[x] <= 1
    ensures x in Toggle(s, x) <==> x !in s
  {
    ToggleMultiset(s, x);
    assert x in s <==> x in multiset(s);
    assert x in Toggle(s, x) <==> x in multiset(Toggle(s, x));
  }

  /** With a duplicate, one toggle removes only the first copy: the id stays a
      favourite, so the flips above need the id to occur at most once.
      (The body names the surviving copy; Dafny also finds it alone.) */
  lemma {:induction false} ToggleWithDuplicateKeepsMember<T>(s: seq<T>, x: T, i: nat, j: nat)
    requires i < j < |s| && s[i] == x && s[j] == x
    ensures x in Toggle(s, x)
  {
    SpliceAtIndexOfIsRemoveFirst(s, x);
    assert Toggle(s, x)[j - 1] == x;
  }

  /** Two toggles restore the membership of `x` exactly when `x` does not
      occur exactly twice: with two copies, each toggle drops one of them. */
  lemma ToggleTwiceRestoresMembershipIff<T>(s: seq<T>, x: T)
    ensures (x in Toggle(Toggle(s, x), x) <==> x in s) <==> multiset(s)[x] != 2
  {
    ToggleMultiset(s, x);
    ToggleMultiset(Toggle(s, x), x);
    assert x in s <==> x in multiset(s);
    assert x in Toggle(Toggle(s, x), x) <==> x in multiset(Toggle(Toggle(s, x), x));
  }

  /** Toggling an absent id twice gives back exactly the original list. */
  lemma ToggleTwiceAbsentRestores<T>(s: seq<T>, x: T)
    requires x !in s
    ensures Toggle(Toggle(s, x), x) == s
  {
  }

  /** Toggling an id that occurs once twice keeps the same ids but moves the
      toggled one to the end. */
  lemma ToggleTwicePresentMovesToEnd<T>(s: seq<T>, x: T)
    requires multiset(s)[x] == 1
    ensures Toggle(Toggle(s, x), x) == RemoveFirst(s, x) + [x]
    ensures multiset(Toggle(Toggle(s, x), x)) == multiset(s)
    ensures forall y :: y in Toggle(Toggle(s, x), x) <==> y in s
  {
    var r := Toggle(s, x);
    assert x in s by { assert x in multiset(s); }
    ToggleFlipsAtMostOnce(s, x);
    assert Toggle(r, x) == r + [x];
    RemoveFirstMultiset(s, x);
    assert multiset(r + [x]) == multiset(s);
    forall y
      ensures y in r + [x] <==> y in s
    {
      assert y in multiset(r + [x]) <==> y in multiset(s);
    }
  }
}
