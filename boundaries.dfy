/** The boundary arithmetic of `move_to`: where the moved subtree lands for each
    position, the renumbered window, and the per-endpoint remapping that the bulk
    UPDATE applies to every `left` and every `right` value. */
module Boundaries {
  import opened Forest

  /** The `position` argument of `move_to`: the three symbols it accepts and anything else. */
  datatype Position = Child | Left | Right | Unknown(name: string)

  /** The moved subtree's current bounds and the bounds it is given. */
  datatype Plan = Plan(curLeft: int, curRight: int, newLeft: int, newRight: int)
  {
    /** Width of the moved subtree; a valid plan gives the new bounds the same width. */
    function Extent(): (e: int)
      ensures Valid() ==> e >= 1 && e == newRight - newLeft + 1
    {
      curRight - curLeft + 1
    }

    /** The affected window `[b_left, b_right]`: it starts at the smaller `left` and
        ends at the larger `right`. */
    function BLeft(): (l: int)
      ensures l <= curLeft && l <= newLeft && (l == curLeft || l == newLeft)
    {
      if curLeft <= newLeft then curLeft else newLeft
    }

    function BRight(): (r: int)
      ensures r >= curRight && r >= newRight && (r == curRight || r == newRight)
    {
      if curRight >= newRight then curRight else newRight
    }

    /** How far the subtree travels: both of its bounds land on the new ones. */
    function Shift(): (d: int)
      ensures curLeft + d == newLeft
      ensures Valid() ==> curRight + d == newRight
    {
      newLeft - curLeft
    }

    /** How far the rows between the old and the new place travel: by the subtree's
        width, against the direction of the subtree. */
    function UpDown(): (d: int)
      ensures d == Extent() || d == -Extent()
      ensures Shift() > 0 ==> d == -Extent()
      ensures Valid() && Shift() < 0 ==> d > 0
    {
      if Shift() > 0 then -Extent() else Extent()
    }

    /** A non-empty subtree given new bounds of the same width. */
    predicate Valid() {
      curLeft <= curRight && newRight - newLeft == curRight - curLeft
    }

    predicate InCurrent(v: int) { curLeft <= v <= curRight }
    predicate InNew(v: int) { newLeft <= v <= newRight }
    predicate InWindow(v: int) { BLeft() <= v <= BRight() }

    /** The CASE applied to one endpoint value; the first matching arm wins. */
    function Remap(v: int): (w: int)
      ensures Valid() && InCurrent(v) ==> InNew(w) && w - newLeft == v - curLeft
      ensures Valid() && !InCurrent(v) ==> !InNew(w)
      ensures Valid() ==> (InWindow(v) <==> InWindow(w))
      ensures Valid() && !InWindow(v) ==> w == v
    {
      if curLeft <= v <= curRight then v + Shift()
      else if BLeft() <= v <= BRight() then v + UpDown()
      else v
    }

    /** The inverse of `Remap`. */
    function Unmap(w: int): (v: int)
      ensures Valid() ==> Remap(v) == w
      ensures Valid() ==> (InWindow(w) <==> InWindow(v))
    {
      if newLeft <= w <= newRight then w - Shift()
      else if BLeft() <= w <= BRight() then w - UpDown()
      else w
    }
  }

  /** `Remap` is strictly increasing on the endpoints outside the moved subtree:
      every other row keeps its relative order. */
  lemma RemapMonotone(p: Plan, u: int, v: int)
    requires p.Valid() && !p.InCurrent(u) && !p.InCurrent(v)
    ensures u < v <==> p.Remap(u) < p.Remap(v)
  {
  }

  /** `Remap` is one-to-one; with `Unmap` it is therefore a bijection that maps the
      window onto itself and fixes every value outside it. */
  lemma RemapInjective(p: Plan, u: int, v: int)
    requires p.Valid()
    ensures p.Remap(u) == p.Remap(v) ==> u == v
  {
    if p.InCurrent(u) != p.InCurrent(v) {
    } else if !p.InCurrent(u) {
      RemapMonotone(p, u, v);
      RemapMonotone(p, v, u);
    }
  }

  /** The legality test: an endpoint of the target lies inside the moved subtree.  For proper
      intervals it fails exactly when the target lies wholly before the subtree, wholly after
      it, or around it. */
  predicate Overlaps(curLeft: int, curRight: int, targetLeft: int, targetRight: int)
    ensures curLeft <= curRight && targetLeft < targetRight ==>
      (!Overlaps(curLeft, curRight, targetLeft, targetRight) <==>
        targetRight < curLeft || curRight < targetLeft || (targetLeft < curLeft && curRight < targetRight))
  {
    (curLeft <= targetLeft <= curRight) || (curLeft <= targetRight <= curRight)
  }

  /** The new bounds for each position and direction; `None` for an unknown position. */
  function NewBounds(curLeft: int, curRight: int, targetLeft: int, targetRight: int,
                     position: Position): (r: Option<Plan>)
    ensures r.None? <==> position.Unknown?
    ensures r.Some? ==> r.value.curLeft == curLeft && r.value.curRight == curRight
    ensures r.Some? ==> r.value.newRight - r.value.newLeft + 1 == r.value.Extent()
  {
    // `extent` as the source computes it before the plan exists; the plan's `Extent()`.
    var extent := curRight - curLeft + 1;
    match position
    case Child =>
      if targetLeft < curLeft then Some(Plan(curLeft, curRight, targetLeft + 1, targetLeft + extent))
      else Some(Plan(curLeft, curRight, targetLeft - extent + 1, targetLeft))
    case Left =>
      if targetLeft < curLeft then Some(Plan(curLeft, curRight, targetLeft, targetLeft + extent - 1))
      else Some(Plan(curLeft, curRight, targetLeft - extent, targetLeft - 1))
    case Right =>
      if targetRight < curRight then Some(Plan(curLeft, curRight, targetRight + 1, targetRight + extent))
      else Some(Plan(curLeft, curRight, targetRight - extent + 1, targetRight))
    case Unknown(_) => None
  }

  /** Where the moved subtree lands relative to the target once every endpoint is remapped:
      as `:child` it is the first child (right after the target's left, inside its right),
      as `:left` it ends right before the target, as `:right` it starts right after it.
      The window never reaches beyond the two intervals involved. */
  lemma Placement(curLeft: int, curRight: int, targetLeft: int, targetRight: int, position: Position)
    requires curLeft < curRight && targetLeft < targetRight
    requires !Overlaps(curLeft, curRight, targetLeft, targetRight)
    requires !position.Unknown?
    ensures var p := NewBounds(curLeft, curRight, targetLeft, targetRight, position).value;
      && p.Valid()
      && (curLeft <= targetLeft ==> curLeft <= p.BLeft()) && (targetLeft < curLeft ==> targetLeft <= p.BLeft())
      && p.BRight() <= (if curRight <= targetRight then targetRight else curRight)
      && (position == Child ==> p.Remap(targetLeft) == p.newLeft - 1 && p.newRight < p.Remap(targetRight))
      && (position == Left ==> p.Remap(targetLeft) == p.newRight + 1)
      && (position == Right ==> p.Remap(targetRight) == p.newLeft - 1)
  {
  }
}
