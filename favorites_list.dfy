/** The list operations the detail screen applies to the stored favorites:
    `filter(id => id !== topicID)` when the concept is starred, `push(topicID)`
    when it is not. */
module FavoritesList {

  /** `s.filter(y => y !== x)`: every occurrence of `x` dropped. */
  function Without(s: seq<int>, x: int): (r: seq<int>)
    ensures x !in r
    ensures forall y :: y != x ==> multiset(r)[y] == multiset(s)[y]
    ensures |r| == |s| - multiset(s)[x]
  {
    if s == [] then []
    else
      assert s == [s[0]] + s[1..];
      if s[0] == x then Without(s[1..], x) else [s[0]] + Without(s[1..], x)
  }

  /** `t` is `s` with some elements deleted and the rest kept in order. */
  ghost predicate IsSubsequence(t: seq<int>, s: seq<int>) {
    t == [] || (s != [] && (IsSubsequence(t, s[1..]) || (t[0] == s[0] && IsSubsequence(t[1..], s[1..]))))
  }

  /** Filtering keeps the remaining elements in their original order. */
  lemma {:induction false} WithoutIsSubsequence(s: seq<int>, x: int)
    ensures IsSubsequence(Without(s, x), s)
  {
    if s != [] {
      WithoutIsSubsequence(s[1..], x);
    }
  }

  /** Filtering distributes over concatenation. */
  lemma {:induction false} WithoutAppend(a: seq<int>, b: seq<int>, x: int)
    ensures Without(a + b, x) == Without(a, x) + Without(b, x)
  {
    if a == [] {
      assert a + b == b;
    } else {
      assert (a + b)[1..] == a[1..] + b;
      WithoutAppend(a[1..], b, x);
    }
  }

  /** Filtering out a value that is absent changes nothing. */
  lemma {:induction false} WithoutAbsent(s: seq<int>, x: int)
    requires x !in s
    ensures Without(s, x) == s
  {
    if s != [] {
      WithoutAbsent(s[1..], x);
    }
  }

  /** The list that the toggle writes back, chosen by the screen's flag and
      not by membership. */
  function Toggled(stored: seq<int>, isFavorite: bool, id: int): (r: seq<int>)
    ensures isFavorite ==> id !in r
    ensures !isFavorite ==> |r| == |stored| + 1 && r[..|stored|] == stored && r[|stored|] == id
  {
    if isFavorite then Without(stored, id) else stored + [id]
  }

  /** Whatever the flag, no value other than `id` gains or loses an occurrence. */
  lemma ToggledOnlyTouchesId(stored: seq<int>, isFavorite: bool, id: int)
    ensures forall y :: y != id ==> multiset(Toggled(stored, isFavorite, id))[y] == multiset(stored)[y]
  {
    if !isFavorite {
      assert multiset(stored + [id]) == multiset(stored) + multiset{id};
    }
  }

  /** A flag that agrees with the stored list before a toggle agrees with the
      written list afterwards. */
  lemma ToggledKeepsAgreement(stored: seq<int>, isFavorite: bool, id: int)
    requires isFavorite == (id in stored)
    ensures !isFavorite == (id in Toggled(stored, isFavorite, id))
  {
    if !isFavorite {
      assert Toggled(stored, isFavorite, id)[|stored|] == id;
    }
  }

  /** Starting unstarred with `id` not stored, two toggles restore the list. */
  lemma ToggledTwiceRestores(stored: seq<int>, id: int)
    requires id !in stored
    ensures Toggled(Toggled(stored, false, id), true, id) == stored
  {
    WithoutAppend(stored, [id], id);
    WithoutAbsent(stored, id);
    assert Without([id], id) == [];
  }

  /** With a stale flag (unstarred while `id` is already stored) the round trip
      fails: the second toggle removes the pre-existing occurrences as well. */
  lemma ToggledTwiceStaleFlag(stored: seq<int>, id: int)
    requires id in stored
    ensures Toggled(Toggled(stored, false, id), true, id) == Without(stored, id)
    ensures Toggled(Toggled(stored, false, id), true, id) != stored
  {
    WithoutAppend(stored, [id], id);
    assert Without([id], id) == [];
  }
}
