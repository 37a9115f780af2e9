/**
 * What every page does to a backend table by row id: `.delete().eq("id", id)`
 * followed by a refetch, and the primary-key property that no two rows share
 * an id. `idOf` reads a row's id.
 */
module Rows {

  /** No two rows share an id. */
  predicate UniqueIds<T>(s: seq<T>, idOf: T -> string)
  {
    forall i, j :: 0 <= i < j < |s| ==> idOf(s[i]) != idOf(s[j])
  }

  /** The table after deleting by id: the rows with that id are gone, the
      others stay, unchanged and in their order. */
  function RemoveId<T>(s: seq<T>, idOf: T -> string, id: string): (r: seq<T>)
    ensures |r| <= |s|
  {
    if s == [] then []
    else if idOf(s[0]) == id then RemoveId(s[1..], idOf, id)
    else [s[0]] + RemoveId(s[1..], idOf, id)
  }

  /** After a delete by id exactly the rows with another id remain. */
  lemma {:induction false} RemoveIdMembers<T(!new)>(s: seq<T>, idOf: T -> string, id: string)
    ensures forall x :: x in RemoveId(s, idOf, id) <==> x in s && idOf(x) != id
  {
    if s != [] {
      RemoveIdMembers(s[1..], idOf, id);
      assert forall x :: x in s <==> x == s[0] || x in s[1..];
    }
  }

  /** Deleting an id no row has changes nothing. */
  lemma {:induction false} RemoveAbsentId<T(!new)>(s: seq<T>, idOf: T -> string, id: string)
    requires forall x :: x in s ==> idOf(x) != id
    ensures RemoveId(s, idOf, id) == s
  {
    if s != [] {
      RemoveAbsentId(s[1..], idOf, id);
    }
  }

  lemma UniqueIdsTail<T>(s: seq<T>, idOf: T -> string)
    requires s != [] && UniqueIds(s, idOf)
    ensures UniqueIds(s[1..], idOf)
  {
    forall i, j | 0 <= i < j < |s[1..]|
      ensures idOf(s[1..][i]) != idOf(s[1..][j])
    {
      assert s[1..][i] == s[i + 1] && s[1..][j] == s[j + 1];
    }
  }

  /** With unique ids the first row's id occurs nowhere else. */
  lemma HeadIdUnique<T(!new)>(s: seq<T>, idOf: T -> string)
    requires s != [] && UniqueIds(s, idOf)
    ensures forall x :: x in s[1..] ==> idOf(x) != idOf(s[0])
  {
    forall x | x in s[1..]
      ensures idOf(x) != idOf(s[0])
    {
      var k :| 0 <= k < |s[1..]| && s[1..][k] == x;
      assert s[k + 1] == x;
    }
  }

  /** With unique ids, deleting the id of the row at `k` removes exactly that
      row: the others stay, in their order. */
  lemma {:induction false} RemoveIdAt<T(!new)>(s: seq<T>, idOf: T -> string, k: nat)
    requires UniqueIds(s, idOf) && k < |s|
    ensures RemoveId(s, idOf, idOf(s[k])) == s[..k] + s[k + 1..]
  {
    var id := idOf(s[k]);
    var t := s[1..];
    UniqueIdsTail(s, idOf);
    if k == 0 {
      HeadIdUnique(s, idOf);
      RemoveAbsentId(t, idOf, id);
    } else {
      assert t[k - 1] == s[k];
      assert idOf(s[0]) != id;
      RemoveIdAt(t, idOf, k - 1);
      calc {
        RemoveId(s, idOf, id);
        [s[0]] + RemoveId(t, idOf, id);
        [s[0]] + (t[..k - 1] + t[k..]);
        { assert [s[0]] + t[..k - 1] == s[..k] && t[k..] == s[k + 1..]; }
        s[..k] + s[k + 1..];
      }
    }
  }

  /** A delete keeps the ids unique. */
  lemma {:induction false} RemoveKeepsUniqueIds<T(!new)>(s: seq<T>, idOf: T -> string, id: string)
    requires UniqueIds(s, idOf)
    ensures UniqueIds(RemoveId(s, idOf, id), idOf)
  {
    if s != [] {
      UniqueIdsTail(s, idOf);
      RemoveKeepsUniqueIds(s[1..], idOf, id);
      var rest := RemoveId(s[1..], idOf, id);
      if idOf(s[0]) != id {
        HeadIdUnique(s, idOf);
        RemoveIdMembers(s[1..], idOf, id);
        var r := [s[0]] + rest;
        forall i, j | 0 <= i < j < |r|
          ensures idOf(r[i]) != idOf(r[j])
        {
          assert r[j] == rest[j - 1] && r[j] in s[1..];
          if i > 0 {
            assert r[i] == rest[i - 1];
          }
        }
      }
    }
  }

  /** Adding a row whose id no row has keeps the ids unique, wherever the
      refetch places it. */
  lemma InsertKeepsUniqueIds<T(!new)>(s: seq<T>, idOf: T -> string, k: nat, x: T)
    requires UniqueIds(s, idOf) && k <= |s|
    requires forall y :: y in s ==> idOf(y) != idOf(x)
    ensures UniqueIds(s[..k] + [x] + s[k..], idOf)
  {
    var r := s[..k] + [x] + s[k..];
    forall i, j | 0 <= i < j < |r|
      ensures idOf(r[i]) != idOf(r[j])
    {
      if j < k {
        assert r[i] == s[i] && r[j] == s[j];
      } else if j == k {
        assert r[i] == s[i] && s[i] in s;
      } else if i < k {
        assert r[i] == s[i] && r[j] == s[j - 1];
      } else if i == k {
        assert r[j] == s[j - 1] && s[j - 1] in s;
      } else {
        assert r[i] == s[i - 1] && r[j] == s[j - 1];
      }
    }
  }

  /** Deleting a row just added, wherever the refetch placed it, gives the
      table back when its id was fresh. */
  lemma {:induction false} RemoveUndoesInsert<T(!new)>(s: seq<T>, idOf: T -> string, k: nat, x: T)
    requires k <= |s|
    requires forall y :: y in s ==> idOf(y) != idOf(x)
    ensures RemoveId(s[..k] + [x] + s[k..], idOf, idOf(x)) == s
  {
    if k == 0 {
      assert (s[..0] + [x] + s[0..])[1..] == s;
      RemoveAbsentId(s, idOf, idOf(x));
    } else {
      var t := s[1..];
      assert (s[..k] + [x] + s[k..])[1..] == t[..k - 1] + [x] + t[k - 1..];
      RemoveUndoesInsert(t, idOf, k - 1, x);
    }
  }
}
