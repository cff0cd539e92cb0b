/**
 * `current_selection` of game_integrated/ui_custom.h: the ids of the
 * selected units in a vector used as a set. Looking up, adding and
 * removing all go through `std::find`, the first position holding the id.
 */
module UiSelection {

  /** The ids of `s` are pairwise different. */
  predicate NoDuplicates(s: seq<int>)
  {
    forall i, j :: 0 <= i < j < |s| ==> s[i] != s[j]
  }

  /** `std::find`: the first position of `id` in `s`, or `|s|` when it is absent. */
  function Find(s: seq<int>, id: int): (i: nat)
    ensures i <= |s|
    ensures i < |s| <==> id in s
    ensures i < |s| ==> s[i] == id
    ensures forall k :: 0 <= k < i ==> s[k] != id
  {
    if |s| == 0 then 0
    else if s[0] == id then 0
    else 1 + Find(s[1..], id)
  }

  /** `erase` at the position `find` gives: the first `id` leaves, everything else keeps its order. */
  function RemoveFirst(s: seq<int>, id: int): (r: seq<int>)
    ensures id !in s ==> r == s
    ensures id in s ==> |r| == |s| - 1 && multiset(r) == multiset(s) - multiset{id}
    ensures id in s ==> var i := Find(s, id);
      (forall k :: 0 <= k < i ==> r[k] == s[k]) && (forall k :: i <= k < |r| ==> r[k] == s[k + 1])
  {
    var i := Find(s, id);
    if i < |s| then
      DropAt(s, i);
      s[..i] + s[i + 1..]
    else s
  }

  /** Dropping the element at `i` takes exactly that element out of the multiset. */
  lemma DropAt(s: seq<int>, i: nat)
    requires i < |s|
    ensures multiset(s[..i] + s[i + 1..]) == multiset(s) - multiset{s[i]}
  {
    assert s == s[..i] + [s[i]] + s[i + 1..];
  }

  /** Removal from a set without duplicates leaves no trace of the id and keeps the rest. */
  lemma RemoveFirstFromSet(s: seq<int>, id: int)
    requires NoDuplicates(s)
    ensures NoDuplicates(RemoveFirst(s, id))
    ensures id !in RemoveFirst(s, id)
    ensures forall x :: x in s && x != id ==> x in RemoveFirst(s, id)
  {
    var r := RemoveFirst(s, id);
    var i := Find(s, id);
    if i < |s| {
      assert r == s[..i] + s[i + 1..];
      assert forall k :: 0 <= k < |r| ==> r[k] == if k < i then s[k] else s[k + 1];
      forall x | x in s && x != id
        ensures x in r
      {
        var k :| 0 <= k < |s| && s[k] == x;
        assert k != i;
        if k < i {
          assert r[k] == x;
        } else {
          assert r[k - 1] == x;
        }
      }
    }
  }

  class Selection {
    var current: seq<int>

    /** The vector is used as a set. */
    ghost predicate Valid()
      reads this
    {
      NoDuplicates(current)
    }

    constructor()
      ensures current == [] && Valid()
    {
      current := [];
    }

    /** The `std::find` loop over the vector. */
    method IndexOf(id: int) returns (i: nat)
      ensures i == Find(current, id)
    {
      i := 0;
      while i < |current| && current[i] != id
        invariant i <= |current| && forall k :: 0 <= k < i ==> current[k] != id
      {
        i := i + 1;
      }
      FindFirst(current, id, i);
    }

    /** `current_selection_is_selected(u)`: membership. */
    method IsSelected(id: int) returns (b: bool)
      ensures b <==> id in current
    {
      var i := IndexOf(id);
      b := i != |current|;
    }

    /** `current_selection_add(u)`: an id already present is not added again. */
    method Add(id: int)
      requires Valid()
      modifies this
      ensures current == if id in old(current) then old(current) else old(current) + [id]
      ensures id in current && Valid()
    {
      var i := IndexOf(id);
      if i != |current| {
        return;
      }
      current := current + [id];
    }

    /** `current_selection_clear()`. */
    method Clear()
      modifies this
      ensures current == [] && Valid()
    {
      current := [];
    }

    /** `current_selection_remove(u)`: the id leaves if present; the others keep their order. */
    method Remove(id: int)
      requires Valid()
      modifies this
      ensures current == RemoveFirst(old(current), id)
      ensures id !in current && Valid()
    {
      RemoveFirstFromSet(current, id);
      var i := IndexOf(id);
      if i != |current| {
        current := current[..i] + current[i + 1..];
      }
    }
  }

  /** A position before which `id` does not occur, and where it does or the sequence ends, is `Find`. */
  lemma {:induction false} FindFirst(s: seq<int>, id: int, i: nat)
    requires i <= |s| && forall k :: 0 <= k < i ==> s[k] != id
    requires i == |s| || s[i] == id
    ensures Find(s, id) == i
    decreases i
  {
    if i > 0 {
      assert s[1..][i - 1..] == s[i..];
      FindFirst(s[1..], id, i - 1);
    }
  }
}
