/**
 * `CommandSystem` of game_integrated/simple_rts/commands.js: orders given to
 * a list of units, the smart right click, and the keyboard commands, with
 * the command mode that an `a` key press arms for the next right click.
 */
module JsCommands {
  import opened Common
  import opened JsUnits
  import GridPath

  /** `commandMode`: only NORMAL and ATTACK are ever assigned. */
  datatype CommandMode = Normal | AttackMode

  /** The `orderType` argument of `issueOrder`. */
  datatype OrderType = MoveOrder | AttackOrder | StopOrder | HoldOrder

  /**
   * What `moveTo(dest.x, dest.y)` leaves behind: the cursor at the start of
   * a path that is empty exactly when the unit already stands in the
   * destination's cell, and otherwise ends at the centre of that cell.
   */
  ghost predicate PlannedTo(u: Unit, dest: Point)
    reads u`x, u`y, u`path, u`pathIndex
  {
    u.pathIndex == 0 &&
    (u.path == [] <==> GridPath.CellOf(Point(u.x, u.y)) == GridPath.CellOf(dest)) &&
    (u.path != [] ==> u.path[|u.path| - 1] == GridPath.Centre(GridPath.CellOf(dest)))
  }

  /**
   * The state `issueOrder` leaves one unit in. MOVE plans a path to `dest`
   * under a MOVE order. ATTACK with a target unit plans a path to it under
   * an ATTACK order on it; without one it is a MOVE. STOP and HOLD drop the
   * path under a STOP or HOLD order.
   */
  ghost predicate Ordered(u: Unit, orderType: OrderType, dest: Point, targetUnit: Option<Unit>)
    reads u`x, u`y, u`path, u`pathIndex, u`currentOrder
  {
    match orderType
    case MoveOrder => u.currentOrder == Some(Move) && PlannedTo(u, dest)
    case AttackOrder =>
      (if targetUnit.Some? then u.currentOrder == Some(Attack(targetUnit.value)) else u.currentOrder == Some(Move)) &&
      PlannedTo(u, dest)
    case StopOrder => u.currentOrder == Some(Order.Stop) && u.path == []
    case HoldOrder => u.currentOrder == Some(Order.Hold) && u.path == []
  }

  /** Where the units of an order head: the target unit's position for an ATTACK on a unit, else the clicked point. */
  function Destination(orderType: OrderType, target: Point, targetUnit: Option<Unit>): Point
    reads if targetUnit.Some? then {targetUnit.value} else {}
  {
    if orderType == AttackOrder && targetUnit.Some? then Point(targetUnit.value.x, targetUnit.value.y) else target
  }

  /** The command the smart right click issues. */
  function RightClickOrder(mode: CommandMode, owner: int, targetUnit: Option<Unit>): OrderType
  {
    if mode == AttackMode then AttackOrder
    else if targetUnit.Some? && targetUnit.value.owner != owner then AttackOrder
    else MoveOrder
  }

  /** `String.prototype.toLowerCase` on one character, for the ASCII letters. */
  function LowerChar(c: char): char
  {
    if 'A' <= c <= 'Z' then (c as int + 32) as char else c
  }

  function ToLower(s: string): (t: string)
  {
    seq(|s|, i requires 0 <= i < |s| => LowerChar(s[i]))
  }

  /**
   * Lower-casing is idempotent, and the key names that arm ATTACK mode, or
   * STOP or HOLD, are exactly the two cases of one letter.
   */
  lemma ToLowerFacts(s: string)
    ensures ToLower(ToLower(s)) == ToLower(s)
    ensures ToLower(s) == "a" <==> s == "a" || s == "A"
    ensures ToLower(s) == "s" <==> s == "s" || s == "S"
    ensures ToLower(s) == "h" <==> s == "h" || s == "H"
  {
    assert forall c: char :: LowerChar(LowerChar(c)) == LowerChar(c);
    if |s| == 1 {
      assert ToLower(s)[0] == LowerChar(s[0]);
    }
  }

  class CommandSystem {
    var commandMode: CommandMode

    /** `new CommandSystem()`: NORMAL mode. */
    constructor()
      ensures commandMode == Normal
    {
      commandMode := Normal;
    }

    /** One pass of the loop of `issueOrder`: the order for a single unit. */
    method OrderUnit(unit: Unit, orderType: OrderType, target: Point, targetUnit: Option<Unit>)
      modifies unit`path, unit`pathIndex, unit`currentOrder
      ensures Ordered(unit, orderType, Destination(orderType, target, targetUnit), targetUnit)
      ensures old(unit.Valid()) ==> unit.Valid()
    {
      match orderType
      case MoveOrder =>
        unit.MoveTo(target.x, target.y);
        unit.currentOrder := Some(Move);
      case AttackOrder =>
        if targetUnit.Some? {
          unit.AttackTarget(targetUnit.value);
          unit.MoveTo(targetUnit.value.x, targetUnit.value.y);
        } else {
          unit.MoveTo(target.x, target.y);
          unit.currentOrder := Some(Move);
        }
      case StopOrder =>
        unit.Stop();
      case HoldOrder =>
        unit.Hold();
    }

    /**
     * `issueOrder(units, orderType, target, targetUnit)`: every listed unit
     * ends in the state `Ordered` describes, toward `Destination`. Nothing
     * but the units' paths, cursors and orders changes, and each unit keeps
     * its invariant. `target` is not read by STOP and HOLD.
     */
    method IssueOrder(units: seq<Unit>, orderType: OrderType, target: Point, targetUnit: Option<Unit>)
      modifies units`path, units`pathIndex, units`currentOrder
      ensures forall k :: 0 <= k < |units| ==>
        Ordered(units[k], orderType, Destination(orderType, target, targetUnit), targetUnit)
      ensures forall k :: 0 <= k < |units| ==> old(units[k].Valid()) ==> units[k].Valid()
    {
      ghost var dest := Destination(orderType, target, targetUnit);
      for i := 0 to |units|
        invariant forall k :: 0 <= k < i ==> Ordered(units[k], orderType, dest, targetUnit)
        invariant forall k :: 0 <= k < |units| ==> old(units[k].Valid()) ==> units[k].Valid()
      {
        OrderUnit(units[i], orderType, target, targetUnit);
      }
    }

    /**
     * `handleRightClick(selectedUnits, x, y, targetUnit)`: nothing happens
     * without a selection. Otherwise the selection gets the order
     * `RightClickOrder` picks — ATTACK whenever ATTACK mode was armed, even
     * on an ally or on empty ground; in NORMAL mode ATTACK on a unit whose
     * owner differs from the first selected unit's, else MOVE to the point —
     * and the mode returns to NORMAL.
     */
    method HandleRightClick(selectedUnits: seq<Unit>, x: real, y: real, targetUnit: Option<Unit>)
      modifies this, selectedUnits`path, selectedUnits`pathIndex, selectedUnits`currentOrder
      ensures selectedUnits == [] ==> commandMode == old(commandMode)
      ensures selectedUnits != [] ==>
        commandMode == Normal &&
        var orderType := RightClickOrder(old(commandMode), selectedUnits[0].owner, targetUnit);
        forall k :: 0 <= k < |selectedUnits| ==>
          Ordered(selectedUnits[k], orderType, Destination(orderType, Point(x, y), targetUnit), targetUnit)
      ensures forall k :: 0 <= k < |selectedUnits| ==> old(selectedUnits[k].Valid()) ==> selectedUnits[k].Valid()
    {
      if |selectedUnits| == 0 {
        return;
      }
      if commandMode == AttackMode {
        IssueOrder(selectedUnits, AttackOrder, Point(x, y), targetUnit);
        commandMode := Normal;
      } else {
        if targetUnit.Some? {
          if targetUnit.value.owner != selectedUnits[0].owner {
            IssueOrder(selectedUnits, AttackOrder, Point(x, y), targetUnit);
          } else {
            IssueOrder(selectedUnits, MoveOrder, Point(x, y), None);
          }
        } else {
          IssueOrder(selectedUnits, MoveOrder, Point(x, y), None);
        }
      }
    }

    /**
     * `handleKeyPress(key, selectedUnits)`, ignoring case: `a` arms ATTACK
     * mode, `s` stops and `h` holds the selection, `escape` returns to NORMAL
     * mode, and any other key does nothing.
     */
    method HandleKeyPress(key: string, selectedUnits: seq<Unit>)
      modifies this, selectedUnits`path, selectedUnits`pathIndex, selectedUnits`currentOrder
      ensures ToLower(key) == "a" ==> commandMode == AttackMode
      ensures ToLower(key) == "escape" ==> commandMode == Normal
      ensures ToLower(key) in {"a", "escape"} ==>
        unchanged(selectedUnits`path, selectedUnits`pathIndex, selectedUnits`currentOrder)
      ensures ToLower(key) == "s" ==>
        commandMode == old(commandMode) &&
        forall k :: 0 <= k < |selectedUnits| ==> Ordered(selectedUnits[k], StopOrder, Point(0.0, 0.0), None)
      ensures ToLower(key) == "h" ==>
        commandMode == old(commandMode) &&
        forall k :: 0 <= k < |selectedUnits| ==> Ordered(selectedUnits[k], HoldOrder, Point(0.0, 0.0), None)
      ensures ToLower(key) !in {"a", "s", "h", "escape"} ==>
        commandMode == old(commandMode) &&
        unchanged(selectedUnits`path, selectedUnits`pathIndex, selectedUnits`currentOrder)
      ensures forall k :: 0 <= k < |selectedUnits| ==> old(selectedUnits[k].Valid()) ==> selectedUnits[k].Valid()
    {
      var k := ToLower(key);
      if k == "a" {
        commandMode := AttackMode;
      } else if k == "s" {
        IssueOrder(selectedUnits, StopOrder, Point(0.0, 0.0), None);
      } else if k == "h" {
        IssueOrder(selectedUnits, HoldOrder, Point(0.0, 0.0), None);
      } else if k == "escape" {
        commandMode := Normal;
      }
    }
  }
}
