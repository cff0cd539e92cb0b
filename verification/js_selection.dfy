/**
 * `SelectionManager` of game_integrated/test/selection.js: the list of
 * selected units, kept free of repeats and in step with each unit's
 * `isSelected` flag; rectangle selection, hit-testing at a point, and the
 * mouse drag that turns into a rectangle selection.
 */
module JsSelection {
  import opened Common
  import opened JsUnits

  /** `s` without any occurrence of `u`, the rest in order. */
  function Without(s: seq<Unit>, u: Unit): seq<Unit>
  {
    if |s| == 0 then []
    else if s[|s| - 1] == u then Without(s[..|s| - 1], u)
    else Without(s[..|s| - 1], u) + [s[|s| - 1]]
  }

  /** `Without` keeps exactly the units other than `u`, in order, and never grows the list. */
  lemma {:induction false} WithoutMembers(s: seq<Unit>, u: Unit)
    ensures forall k :: 0 <= k < |Without(s, u)| ==> Without(s, u)[k] in s && Without(s, u)[k] != u
    ensures forall k :: 0 <= k < |s| && s[k] != u ==> s[k] in Without(s, u)
    ensures |Without(s, u)| <= |s|
    decreases |s|
  {
    if |s| > 0 {
      var n := |s| - 1;
      WithoutMembers(s[..n], u);
      assert forall k :: 0 <= k < n ==> s[..n][k] == s[k];
    }
  }

  /** Removing the one occurrence of `u` at `i` from a list without repeats is `Without`. */
  lemma {:induction false} SpliceIsWithout(s: seq<Unit>, i: nat, u: Unit)
    requires Distinct(s) && i < |s| && s[i] == u
    ensures s[..i] + s[i + 1..] == Without(s, u)
    decreases |s|
  {
    var n := |s| - 1;
    var front := s[..n];
    assert Distinct(front);
    if i == n {
      assert s[..i] + s[i + 1..] == front;
      assert u !in front;
      WithoutAbsent(front, u);
    } else {
      assert s[n] != u;
      assert Without(s, u) == Without(front, u) + [s[n]];
      SpliceIsWithout(front, i, u);
      assert front[..i] + front[i + 1..] + [s[n]] == s[..i] + s[i + 1..];
    }
  }

  /** A unit that is not listed is removed from nothing. */
  lemma {:induction false} WithoutAbsent(s: seq<Unit>, u: Unit)
    requires u !in s
    ensures Without(s, u) == s
    decreases |s|
  {
    if |s| > 0 {
      var n := |s| - 1;
      WithoutAbsent(s[..n], u);
      assert s[..n] + [s[n]] == s;
    }
  }

  /** The units kept from `s` by `Picked`, in order. */
  function Picks(s: seq<Unit>, minX: real, maxX: real, minY: real, maxY: real, playerOwner: int): (r: seq<Unit>)
    reads s`x, s`y, s`hp
    ensures forall k :: 0 <= k < |r| ==> r[k] in s && Picked(r[k], minX, maxX, minY, maxY, playerOwner)
  {
    if |s| == 0 then []
    else
      var rest := Picks(s[..|s| - 1], minX, maxX, minY, maxY, playerOwner);
      if Picked(s[|s| - 1], minX, maxX, minY, maxY, playerOwner) then rest + [s[|s| - 1]] else rest
  }

  /**
   * One pass of the loop of `selectUnitsInRect` keeps the selection equal to
   * the picked units seen so far, as a set, and as a list when no unit is
   * listed twice.
   */
  lemma PicksStep(prev: seq<Unit>, cur: seq<Unit>, units: seq<Unit>, i: nat,
                  minX: real, maxX: real, minY: real, maxY: real, playerOwner: int)
    requires i < |units|
    requires forall u :: u in prev <==> u in units[..i] && Picked(u, minX, maxX, minY, maxY, playerOwner)
    requires Distinct(units) ==> prev == Picks(units[..i], minX, maxX, minY, maxY, playerOwner)
    requires cur == if Picked(units[i], minX, maxX, minY, maxY, playerOwner) && units[i] !in prev
      then prev + [units[i]] else prev
    ensures forall u :: u in cur <==> u in units[..i + 1] && Picked(u, minX, maxX, minY, maxY, playerOwner)
    ensures Distinct(units) ==> cur == Picks(units[..i + 1], minX, maxX, minY, maxY, playerOwner)
  {
    var next := units[..i + 1];
    assert next[..i] == units[..i];
    assert next == units[..i] + [units[i]];
    if Distinct(units) {
      assert units[i] !in units[..i];
    }
  }

  /** A living unit of the player, inside the rectangle, borders included. */
  predicate Picked(u: Unit, minX: real, maxX: real, minY: real, maxY: real, playerOwner: int)
    reads u`x, u`y, u`hp
  {
    u.owner == playerOwner && u.hp > 0.0 && minX <= u.x <= maxX && minY <= u.y <= maxY
  }

  /** A unit whose circle contains the point `(x, y)`, edge included, and that is alive. */
  predicate Hit(u: Unit, x: real, y: real, norm: Norm)
    reads u`x, u`y, u`hp
  {
    u.hp > 0.0 && norm(x - u.x, y - u.y) <= u.size
  }

  /** The index `findUnitAt` returns: the last living unit whose circle contains the point, or -1. */
  function LastHit(x: real, y: real, units: seq<Unit>, norm: Norm): (i: int)
    reads units`x, units`y, units`hp
    ensures -1 <= i < |units|
    ensures i >= 0 ==> Hit(units[i], x, y, norm)
    ensures forall k :: i < k < |units| ==> !Hit(units[k], x, y, norm)
    decreases |units|
  {
    if |units| == 0 then -1
    else if Hit(units[|units| - 1], x, y, norm) then |units| - 1
    else LastHit(x, y, units[..|units| - 1], norm)
  }

  /** The rectangle `getDragRect` reports. */
  datatype Rect = Rect(x: real, y: real, width: real, height: real)

  class SelectionManager {
    var selectedUnits: seq<Unit>
    var dragStart: Option<Point>
    var dragEnd: Option<Point>
    var isDragging: bool

    /** The invariant: no unit is listed twice, and every listed unit has its flag set. */
    ghost predicate Valid()
      reads this, selectedUnits`isSelected
    {
      Distinct(selectedUnits) && forall u :: u in selectedUnits ==> u.isSelected
    }

    /** `new SelectionManager()`: nothing selected, no drag. */
    constructor()
      ensures selectedUnits == [] && dragStart == None && dragEnd == None && !isDragging
      ensures Valid()
    {
      selectedUnits := [];
      dragStart := None;
      dragEnd := None;
      isDragging := false;
    }

    /** `clearSelection()`: every listed unit loses its flag and the list empties. */
    method ClearSelection()
      modifies this`selectedUnits, selectedUnits`isSelected
      ensures selectedUnits == []
      ensures forall u :: u in old(selectedUnits) ==> !u.isSelected
      ensures Valid()
    {
      var listed := selectedUnits;
      for i := 0 to |listed|
        invariant forall k :: 0 <= k < i ==> !listed[k].isSelected
      {
        listed[i].isSelected := false;
      }
      selectedUnits := [];
    }

    /** The units whose flag `selectUnit` may clear: the whole selection, unless shift is held. */
    function ClearedBy(shiftPressed: bool): set<Unit>
      reads this
    {
      if shiftPressed then {} else set u | u in selectedUnits
    }

    /**
     * `selectUnit(unit, shiftPressed)`: without shift the selection is
     * cleared first. The unit is then appended and flagged, unless it is
     * already listed.
     */
    method SelectUnit(unit: Unit, shiftPressed: bool)
      requires Valid()
      modifies this`selectedUnits, ClearedBy(shiftPressed)`isSelected, unit`isSelected
      ensures var kept := if shiftPressed then old(selectedUnits) else [];
        selectedUnits == if unit in kept then kept else kept + [unit]
      ensures !shiftPressed ==> forall u :: u in old(selectedUnits) && u != unit ==> !u.isSelected
      ensures unit.isSelected
      ensures Valid()
    {
      if !shiftPressed {
        ClearSelection();
      }
      if unit !in selectedUnits {
        selectedUnits := selectedUnits + [unit];
        unit.isSelected := true;
      }
    }

    /** `indexOf`: the first position of `unit` in the selection, or -1. */
    method IndexOf(unit: Unit) returns (index: int)
      ensures -1 <= index < |selectedUnits|
      ensures index >= 0 ==> selectedUnits[index] == unit && unit !in selectedUnits[..index]
      ensures index < 0 ==> unit !in selectedUnits
    {
      for i := 0 to |selectedUnits|
        invariant unit !in selectedUnits[..i]
      {
        if selectedUnits[i] == unit {
          return i;
        }
        assert selectedUnits[..i + 1] == selectedUnits[..i] + [selectedUnits[i]];
      }
      assert selectedUnits[..|selectedUnits|] == selectedUnits;
      return -1;
    }

    /** `deselectUnit(unit)`: a listed unit leaves the list and loses its flag; otherwise nothing changes. */
    method DeselectUnit(unit: Unit)
      requires Valid()
      modifies this`selectedUnits, unit`isSelected
      ensures selectedUnits == Without(old(selectedUnits), unit)
      ensures unit in old(selectedUnits) ==> !unit.isSelected
      ensures unit !in old(selectedUnits) ==> unchanged(unit`isSelected)
      ensures Valid()
    {
      var index := IndexOf(unit);
      if index > -1 {
        SpliceIsWithout(selectedUnits, index, unit);
        selectedUnits := selectedUnits[..index] + selectedUnits[index + 1..];
        unit.isSelected := false;
      } else {
        WithoutAbsent(selectedUnits, unit);
      }
    }

    /**
     * `selectUnitsInRect(x1, y1, x2, y2, units, playerOwner)`: the selection
     * becomes exactly the player's living units inside the rectangle spanned
     * by the two corners, in list order and without repeats; the previous
     * selection loses its flags first.
     */
    method SelectUnitsInRect(x1: real, y1: real, x2: real, y2: real, units: seq<Unit>, playerOwner: int)
      requires Valid()
      modifies this`selectedUnits, selectedUnits`isSelected, units`isSelected
      ensures var minX, maxX, minY, maxY := RMin(x1, x2), RMax(x1, x2), RMin(y1, y2), RMax(y1, y2);
        (forall u :: u in selectedUnits <==> u in units && Picked(u, minX, maxX, minY, maxY, playerOwner)) &&
        (Distinct(units) ==> selectedUnits == Picks(units, minX, maxX, minY, maxY, playerOwner))
      ensures forall u :: u in old(selectedUnits) && u !in selectedUnits ==> !u.isSelected
      ensures forall u :: u in units && u !in old(selectedUnits) && u !in selectedUnits ==> u.isSelected == old(u.isSelected)
      ensures Valid()
    {
      ClearSelection();
      var minX := RMin(x1, x2);
      var maxX := RMax(x1, x2);
      var minY := RMin(y1, y2);
      var maxY := RMax(y1, y2);
      ghost var cleared := set u | u in old(selectedUnits);
      for i := 0 to |units|
        invariant Valid()
        invariant forall u :: u in selectedUnits <==> u in units[..i] && Picked(u, minX, maxX, minY, maxY, playerOwner)
        invariant Distinct(units) ==> selectedUnits == Picks(units[..i], minX, maxX, minY, maxY, playerOwner)
        invariant forall u :: u in cleared && u !in selectedUnits ==> !u.isSelected
        invariant forall u :: u in units && u !in cleared && u !in selectedUnits ==> u.isSelected == old(u.isSelected)
      {
        PickNext(units, i, minX, maxX, minY, maxY, playerOwner, cleared);
      }
      assert units[..|units|] == units;
    }

    /** One pass of the loop of `selectUnitsInRect`, with what it keeps true about the units seen so far. */
    method PickNext(units: seq<Unit>, i: nat, minX: real, maxX: real, minY: real, maxY: real, playerOwner: int,
                    ghost cleared: set<Unit>)
      requires Valid() && i < |units|
      requires forall u :: u in selectedUnits <==> u in units[..i] && Picked(u, minX, maxX, minY, maxY, playerOwner)
      requires Distinct(units) ==> selectedUnits == Picks(units[..i], minX, maxX, minY, maxY, playerOwner)
      requires forall u :: u in cleared && u !in selectedUnits ==> !u.isSelected
      modifies this`selectedUnits, {units[i]}`isSelected
      ensures forall u :: u in selectedUnits <==> u in units[..i + 1] && Picked(u, minX, maxX, minY, maxY, playerOwner)
      ensures Distinct(units) ==> selectedUnits == Picks(units[..i + 1], minX, maxX, minY, maxY, playerOwner)
      ensures forall u :: u in cleared && u !in selectedUnits ==> !u.isSelected
      ensures units[i] !in selectedUnits ==> units[i].isSelected == old(units[i].isSelected)
      ensures Valid()
    {
      ghost var prev := selectedUnits;
      PickUnit(units[i], minX, maxX, minY, maxY, playerOwner, cleared);
      PicksStep(prev, selectedUnits, units, i, minX, maxX, minY, maxY, playerOwner);
    }

    /** One pass of the loop of `selectUnitsInRect`: a picked unit is added with `selectUnit(unit, true)`. */
    method PickUnit(unit: Unit, minX: real, maxX: real, minY: real, maxY: real, playerOwner: int, ghost cleared: set<Unit>)
      requires Valid()
      requires forall u :: u in cleared && u !in selectedUnits ==> !u.isSelected
      modifies this`selectedUnits, unit`isSelected
      ensures selectedUnits ==
        if Picked(unit, minX, maxX, minY, maxY, playerOwner) && unit !in old(selectedUnits)
        then old(selectedUnits) + [unit] else old(selectedUnits)
      ensures Picked(unit, minX, maxX, minY, maxY, playerOwner) ==> unit.isSelected
      ensures !Picked(unit, minX, maxX, minY, maxY, playerOwner) ==> unchanged(unit`isSelected)
      ensures forall u :: u in cleared && u !in selectedUnits ==> !u.isSelected
      ensures Valid()
    {
      if unit.owner != playerOwner {
        return;
      }
      if unit.hp <= 0.0 {
        return;
      }
      if unit.x >= minX && unit.x <= maxX && unit.y >= minY && unit.y <= maxY {
        SelectUnit(unit, true);
      }
    }

    /** `findUnitAt(x, y, units)`: scanning from the end, the first living unit under the point. */
    method FindUnitAt(x: real, y: real, units: seq<Unit>, norm: Norm) returns (found: Option<Unit>)
      ensures var i := LastHit(x, y, units, norm);
        found == if i < 0 then None else Some(units[i])
    {
      found := None;
      var i := |units| - 1;
      while i >= 0
        invariant -1 <= i < |units|
        invariant LastHit(x, y, units, norm) == LastHit(x, y, units[..i + 1], norm)
        decreases i
      {
        var unit := units[i];
        assert units[..i + 1][..i] == units[..i];
        if unit.hp <= 0.0 {
          i := i - 1;
          continue;
        }
        var dx := x - unit.x;
        var dy := y - unit.y;
        var distance := norm(dx, dy);
        if distance <= unit.size {
          assert Hit(unit, x, y, norm);
          return Some(unit);
        }
        i := i - 1;
      }
    }

    /** `startDrag(x, y)`. */
    method StartDrag(x: real, y: real)
      modifies this`dragStart, this`isDragging
      ensures dragStart == Some(Point(x, y)) && isDragging
    {
      dragStart := Some(Point(x, y));
      isDragging := true;
    }

    /** `updateDrag(x, y)`: the drag end follows the mouse only while dragging. */
    method UpdateDrag(x: real, y: real)
      modifies this`dragEnd
      ensures isDragging ==> dragEnd == Some(Point(x, y))
      ensures !isDragging ==> dragEnd == old(dragEnd)
    {
      if isDragging {
        dragEnd := Some(Point(x, y));
      }
    }

    /** The drag that `endDrag` turns into a rectangle selection: both ends set, and more than 10 apart. */
    predicate DragSelects(norm: Norm)
      reads this
    {
      isDragging && dragStart.Some? && dragEnd.Some? &&
      norm(dragEnd.value.x - dragStart.value.x, dragEnd.value.y - dragStart.value.y) > 10.0
    }

    /**
     * `endDrag(units, playerOwner)`: a drag longer than 10 selects the
     * player's units in its rectangle; a shorter one leaves the selection
     * alone. Either way the drag state is reset.
     */
    method EndDrag(units: seq<Unit>, playerOwner: int, norm: Norm)
      requires Valid()
      modifies this`selectedUnits, this`isDragging, this`dragStart, this`dragEnd, selectedUnits`isSelected,
        units`isSelected
      ensures !isDragging && dragStart == None && dragEnd == None
      ensures old(DragSelects(norm)) ==>
        var s, e := old(dragStart.value), old(dragEnd.value);
        forall u :: u in selectedUnits <==>
          u in units && Picked(u, RMin(s.x, e.x), RMax(s.x, e.x), RMin(s.y, e.y), RMax(s.y, e.y), playerOwner)
      ensures !old(DragSelects(norm)) ==> selectedUnits == old(selectedUnits) && unchanged(units`isSelected)
      ensures forall u :: u in units && u !in old(selectedUnits) && u !in selectedUnits ==> u.isSelected == old(u.isSelected)
      ensures Valid()
    {
      if isDragging && dragStart.Some? && dragEnd.Some? {
        var dx := dragEnd.value.x - dragStart.value.x;
        var dy := dragEnd.value.y - dragStart.value.y;
        var distance := norm(dx, dy);
        if distance > 10.0 {
          SelectUnitsInRect(dragStart.value.x, dragStart.value.y, dragEnd.value.x, dragEnd.value.y, units, playerOwner);
        }
      }
      isDragging := false;
      dragStart := None;
      dragEnd := None;
    }

    /**
     * `getDragRect()`: nothing unless a drag with both ends is under way;
     * otherwise the smallest rectangle holding both ends, whose width and
     * height are never negative.
     */
    function GetDragRect(): (r: Option<Rect>)
      reads this
      ensures r.Some? <==> isDragging && dragStart.Some? && dragEnd.Some?
      ensures r.Some? ==> 0.0 <= r.value.width && 0.0 <= r.value.height
      ensures r.Some? ==>
        var s, e := dragStart.value, dragEnd.value;
        r.value.x <= s.x <= r.value.x + r.value.width && r.value.x <= e.x <= r.value.x + r.value.width &&
        r.value.y <= s.y <= r.value.y + r.value.height && r.value.y <= e.y <= r.value.y + r.value.height &&
        (r.value.x == s.x || r.value.x == e.x) && (r.value.y == s.y || r.value.y == e.y)
    {
      if !isDragging || dragStart.None? || dragEnd.None? then None
      else
        Some(Rect(RMin(dragStart.value.x, dragEnd.value.x), RMin(dragStart.value.y, dragEnd.value.y),
          RAbs(dragEnd.value.x - dragStart.value.x), RAbs(dragEnd.value.y - dragStart.value.y)))
    }
  }
}
