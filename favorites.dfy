/** The favourites toggle: a list of track ids in which a toggled id is removed when
    present and appended when absent. */
module Favorites {

  /** What a toggle reports. */
  datatype Status = Added | Removed | NotAuthenticated

  /** No id occurs twice. */
  ghost predicate NoDup<T>(s: seq<T>)
  {
    forall i, j :: 0 <= i < j < |s| ==> s[i] != s[j]
  }

  /** Index of the first occurrence of x in s; -1 when there is none. */
  function IndexOf<T(==)>(s: seq<T>, x: T): (k: int)
    ensures -1 <= k < |s|
    ensures k == -1 <==> x !in s
    ensures 0 <= k ==> s[k] == x && forall i :: 0 <= i < k ==> s[i] != x
  {
    if s == [] then -1
    else if s[0] == x then 0
    else
      var k := IndexOf(s[1..], x);
      if k == -1 then -1 else k + 1
  }

  /** s without its first occurrence of x, as list removal does it; s itself when x is
      absent. */
  function RemoveFirst<T(==)>(s: seq<T>, x: T): (r: seq<T>)
    ensures x in s ==> |r| == |s| - 1
    ensures x !in s ==> r == s
  {
    var k := IndexOf(s, x);
    if k == -1 then s else s[..k] + s[k + 1..]
  }

  /** The list after toggling x. */
  function Toggled<T(==)>(s: seq<T>, x: T): seq<T>
  {
    if x in s then RemoveFirst(s, x) else s + [x]
  }

  /** Removing a present id takes away one copy of it and nothing else. */
  lemma RemovedContents<T>(s: seq<T>, x: T)
    requires x in s
    ensures multiset(RemoveFirst(s, x)) + multiset{x} == multiset(s)
  {
    var k := IndexOf(s, x);
    assert s == s[..k] + [x] + s[k + 1..];
  }

  /** A toggle removes one copy of a present id and appends an absent one; nothing else
      is gained or lost. */
  lemma ToggledContents<T>(s: seq<T>, x: T)
    ensures x in s ==> multiset(Toggled(s, x)) + multiset{x} == multiset(s)
    ensures x !in s ==> multiset(Toggled(s, x)) == multiset(s) + multiset{x}
  {
    if x in s {
      RemovedContents(s, x);
    }
  }

  /** Removing the first copy of an id from a list without duplicates removes every
      copy and keeps the list free of duplicates. */
  lemma RemoveFirstNoDup<T>(s: seq<T>, x: T)
    requires NoDup(s) && x in s
    ensures NoDup(RemoveFirst(s, x)) && x !in RemoveFirst(s, x)
  {
    var k := IndexOf(s, x);
    var r := RemoveFirst(s, x);
    forall i | 0 <= i < |r|
      ensures r[i] == s[if i < k then i else i + 1]
    {
    }
    forall i, j | 0 <= i < j < |r|
      ensures r[i] != r[j]
    {
      assert s[if i < k then i else i + 1] != s[if j < k then j else j + 1];
    }
    forall i | 0 <= i < |r|
      ensures r[i] != x
    {
      assert s[if i < k then i else i + 1] != s[k];
    }
  }

  /** On a list without duplicates, a toggled id is present afterwards exactly when it
      was absent before, every other id keeps its membership, and the list still has no
      duplicates. */
  lemma ToggleKeepsSet<T>(s: seq<T>, x: T)
    requires NoDup(s)
    ensures x in Toggled(s, x) <==> x !in s
    ensures NoDup(Toggled(s, x))
    ensures forall y :: y != x ==> (y in Toggled(s, x) <==> y in s)
  {
    ToggledContents(s, x);
    if x in s {
      RemoveFirstNoDup(s, x);
    } else {
      var r := s + [x];
      forall i, j | 0 <= i < j < |r|
        ensures r[i] != r[j]
      {
        if j == |s| {
          assert r[i] == s[i];
        }
      }
    }
    forall y | y != x
      ensures y in Toggled(s, x) <==> y in s
    {
      assert multiset(Toggled(s, x))[y] == multiset(s)[y];
    }
  }

  /** Toggling an absent id twice gives back the original list. */
  lemma ToggleTwiceAbsent<T>(s: seq<T>, x: T)
    requires x !in s
    ensures Toggled(Toggled(s, x), x) == s
  {
    var t := s + [x];
    assert t[|s|] == x;
    forall i | 0 <= i < |s|
      ensures t[i] != x
    {
      assert t[i] == s[i];
    }
    assert IndexOf(t, x) == |s|;
    assert t[..|s|] == s;
  }

  /** Moving the element at k of a list without duplicates to the end keeps its contents,
      and gives back the same list exactly when k was already the last index. */
  lemma MoveToEnd<T>(s: seq<T>, k: int)
    requires NoDup(s) && 0 <= k < |s|
    ensures multiset(s[..k] + s[k + 1..] + [s[k]]) == multiset(s)
    ensures s[..k] + s[k + 1..] + [s[k]] == s <==> k == |s| - 1
  {
    var m := s[..k] + s[k + 1..] + [s[k]];
    assert s == s[..k] + [s[k]] + s[k + 1..];
    if k == |s| - 1 {
      assert s[k + 1..] == [];
      assert s[..k] + [s[k]] == s;
    } else {
      assert m[|s| - 1] == s[k] != s[|s| - 1];
    }
  }

  /** Toggling a present id twice on a list without duplicates moves that id to the end:
      the contents are kept, and the original list comes back exactly when the id was
      already last. */
  lemma TogglePresentTwice<T>(s: seq<T>, x: T)
    requires NoDup(s) && x in s
    ensures Toggled(Toggled(s, x), x) == RemoveFirst(s, x) + [x]
    ensures multiset(Toggled(Toggled(s, x), x)) == multiset(s)
    ensures Toggled(Toggled(s, x), x) == s <==> s[|s| - 1] == x
  {
    RemoveFirstNoDup(s, x);
    var k := IndexOf(s, x);
    var r := RemoveFirst(s, x);
    assert Toggled(s, x) == r;
    assert Toggled(r, x) == r + [x];
    MoveToEnd(s, k);
    assert s[|s| - 1] == x <==> k == |s| - 1;
  }

  /** The session's favourites list. */
  class FavoriteList {
    var ids: seq<string>

    /** Toggling is the only update, so no id is ever listed twice. */
    ghost predicate Valid()
      reads this
    {
      NoDup(ids)
    }

    /** A session that has no favourites list yet starts from the empty one. */
    constructor ()
      ensures Valid() && ids == []
    {
      ids := [];
    }

    /** Toggles `trackId`; an unauthenticated caller is refused and nothing changes. */
    method Toggle(trackId: string, authenticated: bool) returns (status: Status)
      requires Valid()
      modifies this
      ensures Valid()
      ensures !authenticated ==> status == NotAuthenticated && ids == old(ids)
      ensures authenticated ==> ids == Toggled(old(ids), trackId)
      ensures authenticated ==> (status == Removed <==> trackId in old(ids))
      ensures authenticated ==> (status == Added <==> trackId !in old(ids))
    {
      if !authenticated {
        return NotAuthenticated;
      }
      ToggleKeepsSet(ids, trackId);
      if trackId in ids {
        ids := RemoveFirst(ids, trackId);
        status := Removed;
      } else {
        ids := ids + [trackId];
        status := Added;
      }
    }
  }
}
