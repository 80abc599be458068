/** What `move_to` guarantees: which moves it refuses, what the UPDATE touches,
    where the subtree lands, and that a legal move on a well-formed table leaves a
    well-formed table. */
module MoveProperties {
  import opened Forest
  import opened Boundaries
  import opened Moves

  /** Both endpoints of the row lie on the same side of the moved subtree's bounds. */
  predicate Aligned(p: Plan, x: Row) {
    p.InCurrent(x.left) == p.InCurrent(x.right)
  }

  /** A legal move of row `s` to `position` relative to row `t` of a well-formed table. */
  ghost predicate LegalMove(rows: seq<Row>, s: int, t: int, position: Position, u: Update) {
    && WellFormed(rows)
    && 0 <= s < |rows| && 0 <= t < |rows|
    && !position.Unknown?
    && !Overlaps(rows[s].left, rows[s].right, rows[t].left, rows[t].right)
    && NewBounds(rows[s].left, rows[s].right, rows[t].left, rows[t].right, position) == Some(u.plan)
    && u.movedId == rows[s].id
    && u.newParent == NewParent(rows[t], position)
  }

  lemma IndexOfUnique(rows: seq<Row>, i: int)
    requires UniqueIds(rows) && 0 <= i < |rows|
    ensures IndexOf(rows, rows[i].id) == Some(i)
  {
  }

  /** A successful `Move` on a well-formed table is a legal move of the two rows it reloaded. */
  lemma SuccessIsLegal(rows: seq<Row>, selfId: int, targetId: int, position: Position)
    requires WellFormed(rows)
    requires PlanMove(rows, selfId, targetId, position).Success?
    ensures IndexOf(rows, selfId).Some? && IndexOf(rows, targetId).Some?
    ensures LegalMove(rows, IndexOf(rows, selfId).value, IndexOf(rows, targetId).value, position,
                      PlanMove(rows, selfId, targetId, position).value)
  {
  }

  /** Row-pair facts: how `Remap` acts on the relation between two aligned intervals. */
  lemma PairAfter(u: Update, x: Row, y: Row)
    requires u.plan.Valid()
    requires x.left < x.right && y.left < y.right && Aligned(u.plan, x) && Aligned(u.plan, y)
    ensures UpdatedRow(u, x).left < UpdatedRow(u, x).right
    ensures u.plan.InCurrent(x.left) == u.plan.InCurrent(y.left) ==>
      && (Encloses(UpdatedRow(u, x), UpdatedRow(u, y)) <==> Encloses(x, y))
      && (Apart(UpdatedRow(u, x), UpdatedRow(u, y)) <==> Apart(x, y))
    ensures !u.plan.InCurrent(x.left) && u.plan.InCurrent(y.left) ==>
      && (Encloses(UpdatedRow(u, x), UpdatedRow(u, y)) <==>
            UpdatedRow(u, x).left < u.plan.newLeft && u.plan.newRight < UpdatedRow(u, x).right)
      && !Encloses(UpdatedRow(u, y), UpdatedRow(u, x))
      && !Encloses(y, x)
      && Nested(UpdatedRow(u, x), UpdatedRow(u, y))
  {
    var p := u.plan;
    if !p.InCurrent(x.left) {
      RemapMonotone(p, x.left, x.right);
      if !p.InCurrent(y.left) {
        RemapMonotone(p, x.left, y.left);
        RemapMonotone(p, y.right, x.right);
        RemapMonotone(p, x.right, y.left);
        RemapMonotone(p, y.right, x.left);
      }
    }
  }

  /** The consequences of legality the proofs below rely on. */
  lemma LegalMoveFacts(rows: seq<Row>, s: int, t: int, position: Position, u: Update)
    requires LegalMove(rows, s, t, position, u)
    ensures u.plan.Valid() && u.plan.curLeft == rows[s].left && u.plan.curRight == rows[s].right
    ensures forall i :: 0 <= i < |rows| ==>
      && Aligned(u.plan, rows[i])
      && (u.plan.InCurrent(rows[i].left) <==> (i == s || Encloses(rows[s], rows[i])))
    ensures t != s && !u.plan.InCurrent(rows[t].left)
    ensures 1 <= u.plan.BLeft() && u.plan.BRight() <= 2 * |rows|
    ensures position == Child ==>
      u.plan.Remap(rows[t].left) == u.plan.newLeft - 1 && u.plan.newRight < u.plan.Remap(rows[t].right)
    ensures position == Left ==> u.plan.Remap(rows[t].left) == u.plan.newRight + 1
    ensures position == Right ==> u.plan.Remap(rows[t].right) == u.plan.newLeft - 1
  {
    EndpointsInRange(rows, s);
    EndpointsInRange(rows, t);
    Placement(rows[s].left, rows[s].right, rows[t].left, rows[t].right, position);
    forall i | 0 <= i < |rows|
      ensures Aligned(u.plan, rows[i])
      ensures u.plan.InCurrent(rows[i].left) <==> (i == s || Encloses(rows[s], rows[i]))
    {
      if i != s {
        assert Nested(rows[i], rows[s]);
      }
    }
  }

  lemma ProperAfter(rows: seq<Row>, s: int, t: int, position: Position, u: Update)
    requires LegalMove(rows, s, t, position, u)
    ensures ProperIntervals(UpdatedTable(u, rows))
  {
    LegalMoveFacts(rows, s, t, position, u);
    forall i | 0 <= i < |rows| ensures UpdatedTable(u, rows)[i].left < UpdatedTable(u, rows)[i].right {
      PairAfter(u, rows[i], rows[i]);
    }
  }

  lemma LaminarAfter(rows: seq<Row>, s: int, t: int, position: Position, u: Update)
    requires LegalMove(rows, s, t, position, u)
    ensures Laminar(UpdatedTable(u, rows))
  {
    LegalMoveFacts(rows, s, t, position, u);
    var after := UpdatedTable(u, rows);
    forall i, j | 0 <= i < |rows| && 0 <= j < |rows| && i != j ensures Nested(after[i], after[j]) {
      assert Nested(rows[i], rows[j]);
      PairAfter(u, rows[i], rows[j]);
      PairAfter(u, rows[j], rows[i]);
    }
  }

  lemma UniqueIdsAfter(rows: seq<Row>, u: Update)
    requires UniqueIds(rows)
    ensures UniqueIds(UpdatedTable(u, rows))
  {
  }

  /** Every endpoint after the move lies in 1 .. 2N. */
  lemma EndpointsAfterInRange(rows: seq<Row>, s: int, t: int, position: Position, u: Update, v: int)
    requires LegalMove(rows, s, t, position, u)
    requires IsEndpoint(UpdatedTable(u, rows), v)
    ensures 1 <= v <= 2 * |rows|
  {
    LegalMoveFacts(rows, s, t, position, u);
    var after := UpdatedTable(u, rows);
    var i :| 0 <= i < |rows| && (after[i].left == v || after[i].right == v);
    EndpointsInRange(rows, i);
  }

  /** Every value in 1 .. 2N is an endpoint after the move: the one `Unmap` gives was one before. */
  lemma EndpointsAfterCover(rows: seq<Row>, s: int, t: int, position: Position, u: Update, v: int)
    requires LegalMove(rows, s, t, position, u)
    requires 1 <= v <= 2 * |rows|
    ensures IsEndpoint(UpdatedTable(u, rows), v)
  {
    LegalMoveFacts(rows, s, t, position, u);
    var after := UpdatedTable(u, rows);
    var w := u.plan.Unmap(v);
    assert IsEndpoint(rows, w);
    var i :| 0 <= i < |rows| && (rows[i].left == w || rows[i].right == w);
    assert after[i] == UpdatedRow(u, rows[i]);
    assert after[i].left == v || after[i].right == v;
  }

  /** The endpoints after the move are again exactly 1 .. 2N: `Remap` permutes the window,
      which lies inside 1 .. 2N, and fixes everything else. */
  lemma GapFreeAfter(rows: seq<Row>, s: int, t: int, position: Position, u: Update)
    requires LegalMove(rows, s, t, position, u)
    ensures GapFree(UpdatedTable(u, rows))
  {
    forall v ensures IsEndpoint(UpdatedTable(u, rows), v) <==> 1 <= v <= 2 * |rows| {
      if IsEndpoint(UpdatedTable(u, rows), v) {
        EndpointsAfterInRange(rows, s, t, position, u, v);
      }
      if 1 <= v <= 2 * |rows| {
        EndpointsAfterCover(rows, s, t, position, u, v);
      }
    }
  }

  /** A row outside the moved subtree keeps its enclosing rows, hence its parent. */
  lemma ParentAfterOutside(rows: seq<Row>, s: int, t: int, position: Position, u: Update, i: int)
    requires LegalMove(rows, s, t, position, u)
    requires 0 <= i < |rows| && !u.plan.InCurrent(rows[i].left)
    ensures ParentOk(UpdatedTable(u, rows), i)
  {
    LegalMoveFacts(rows, s, t, position, u);
    var after := UpdatedTable(u, rows);
    assert ParentOk(rows, i);
    match rows[i].parentId
    case None =>
      forall k | 0 <= k < |rows| ensures !Encloses(after[k], after[i]) {
        PairAfter(u, rows[k], rows[i]);
        PairAfter(u, rows[i], rows[k]);
      }
    case Some(pid) =>
      var j :| 0 <= j < |rows| && rows[j].id == pid && IsTightest(rows, j, i);
      PairAfter(u, rows[i], rows[j]);
      PairAfter(u, rows[j], rows[i]);
      forall k | 0 <= k < |rows| ensures !(Encloses(after[j], after[k]) && Encloses(after[k], after[i])) {
        PairAfter(u, rows[j], rows[k]);
        PairAfter(u, rows[k], rows[i]);
        PairAfter(u, rows[i], rows[k]);
      }
      assert after[j].id == pid && IsTightest(after, j, i);
  }

  /** A row strictly inside the moved subtree keeps its parent, which moves with it. */
  lemma ParentAfterInside(rows: seq<Row>, s: int, t: int, position: Position, u: Update, i: int)
    requires LegalMove(rows, s, t, position, u)
    requires 0 <= i < |rows| && i != s && u.plan.InCurrent(rows[i].left)
    ensures ParentOk(UpdatedTable(u, rows), i)
  {
    LegalMoveFacts(rows, s, t, position, u);
    var after := UpdatedTable(u, rows);
    var p := u.plan;
    assert Encloses(rows[s], rows[i]);
    assert ParentOk(rows, i);
    assert rows[i].parentId.Some?;
    var pid := rows[i].parentId.value;
    var j :| 0 <= j < |rows| && rows[j].id == pid && IsTightest(rows, j, i);
    assert !Encloses(rows[j], rows[s]);
    assert p.InCurrent(rows[j].left);
    PairAfter(u, rows[j], rows[i]);
    forall k | 0 <= k < |rows| ensures !(Encloses(after[j], after[k]) && Encloses(after[k], after[i])) {
      PairAfter(u, rows[j], rows[k]);
      PairAfter(u, rows[k], rows[j]);
      PairAfter(u, rows[k], rows[i]);
    }
    assert after[j].id == pid && IsTightest(after, j, i);
  }

  /** The rows enclosing the moved row afterwards: rows outside the subtree whose new
      interval spans the subtree's new bounds. */
  lemma EnclosersOfMoved(rows: seq<Row>, s: int, t: int, position: Position, u: Update, k: int)
    requires LegalMove(rows, s, t, position, u)
    requires 0 <= k < |rows|
    ensures Encloses(UpdatedTable(u, rows)[k], UpdatedTable(u, rows)[s]) <==>
      && !u.plan.InCurrent(rows[k].left)
      && UpdatedTable(u, rows)[k].left < u.plan.newLeft
      && u.plan.newRight < UpdatedTable(u, rows)[k].right
  {
    LegalMoveFacts(rows, s, t, position, u);
    PairAfter(u, rows[k], rows[s]);
  }

  /** For `:left` and `:right`, the rows enclosing the moved row afterwards are exactly
      the rows that enclosed the target before. */
  lemma EnclosersOfMovedSibling(rows: seq<Row>, s: int, t: int, position: Position, u: Update, k: int)
    requires LegalMove(rows, s, t, position, u) && position != Child
    requires 0 <= k < |rows|
    ensures Encloses(UpdatedTable(u, rows)[k], UpdatedTable(u, rows)[s]) <==> Encloses(rows[k], rows[t])
  {
    LegalMoveFacts(rows, s, t, position, u);
    var after := UpdatedTable(u, rows);
    var p := u.plan;
    EnclosersOfMoved(rows, s, t, position, u, k);
    PairAfter(u, rows[k], rows[t]);
    PairAfter(u, rows[t], rows[k]);
    if k != t && !p.InCurrent(rows[k].left) {
      assert Nested(rows[k], rows[t]);
      RemapInjective(p, rows[k].left, rows[t].left);
      RemapInjective(p, rows[k].right, rows[t].left);
      RemapInjective(p, rows[k].left, rows[t].right);
      RemapInjective(p, rows[k].right, rows[t].right);
      RemapMonotone(p, rows[t].left, rows[t].right);
    }
  }

  /** The moved row's new `parent_id` is the key of its innermost enclosing row afterwards. */
  lemma ParentAfterMoved(rows: seq<Row>, s: int, t: int, position: Position, u: Update)
    requires LegalMove(rows, s, t, position, u)
    ensures ParentOk(UpdatedTable(u, rows), s)
  {
    LegalMoveFacts(rows, s, t, position, u);
    var after := UpdatedTable(u, rows);
    var p := u.plan;
    assert after[s].parentId == NewParent(rows[t], position);
    if position == Child {
      EnclosersOfMoved(rows, s, t, position, u, t);
      forall k | 0 <= k < |rows| ensures !(Encloses(after[t], after[k]) && Encloses(after[k], after[s])) {
        EnclosersOfMoved(rows, s, t, position, u, k);
      }
      assert after[t].id == rows[t].id && IsTightest(after, t, s);
    } else {
      assert ParentOk(rows, t);
      match rows[t].parentId
      case None =>
        forall k | 0 <= k < |rows| ensures !Encloses(after[k], after[s]) {
          EnclosersOfMovedSibling(rows, s, t, position, u, k);
        }
      case Some(pid) =>
        var j :| 0 <= j < |rows| && rows[j].id == pid && IsTightest(rows, j, t);
        EnclosersOfMovedSibling(rows, s, t, position, u, j);
        PairAfter(u, rows[t], rows[j]);
        forall k | 0 <= k < |rows| ensures !(Encloses(after[j], after[k]) && Encloses(after[k], after[s])) {
          EnclosersOfMovedSibling(rows, s, t, position, u, k);
          PairAfter(u, rows[t], rows[k]);
          PairAfter(u, rows[j], rows[k]);
        }
        assert after[j].id == pid && IsTightest(after, j, s);
    }
  }

  lemma ParentsAfter(rows: seq<Row>, s: int, t: int, position: Position, u: Update)
    requires LegalMove(rows, s, t, position, u)
    ensures ParentsConsistent(UpdatedTable(u, rows))
  {
    LegalMoveFacts(rows, s, t, position, u);
    forall i | 0 <= i < |rows| ensures ParentOk(UpdatedTable(u, rows), i) {
      if i == s {
        ParentAfterMoved(rows, s, t, position, u);
      } else if u.plan.InCurrent(rows[i].left) {
        ParentAfterInside(rows, s, t, position, u, i);
      } else {
        ParentAfterOutside(rows, s, t, position, u, i);
      }
    }
  }

  /** A move that succeeds on a well-formed table leaves a well-formed table. */
  lemma MovePreservesWellFormed(rows: seq<Row>, selfId: int, targetId: int, position: Position)
    requires WellFormed(rows)
    requires Move(rows, selfId, targetId, position).Success?
    ensures WellFormed(Move(rows, selfId, targetId, position).value)
  {
    SuccessIsLegal(rows, selfId, targetId, position);
    var s, t := IndexOf(rows, selfId).value, IndexOf(rows, targetId).value;
    var u := PlanMove(rows, selfId, targetId, position).value;
    UniqueIdsAfter(rows, u);
    ProperAfter(rows, s, t, position, u);
    LaminarAfter(rows, s, t, position, u);
    GapFreeAfter(rows, s, t, position, u);
    ParentsAfter(rows, s, t, position, u);
  }

  /** The transaction of `move_to`: an error leaves the table as it was, no error means
      the UPDATE ran, and a call that ends without error on a well-formed table leaves
      it well-formed. */
  lemma CommittedOutcome(before: seq<Row>, after: seq<Row>, err: Option<MoveError>,
                         selfId: int, targetId: int, position: Position)
    requires Committed(before, after, err, selfId, targetId, position)
    ensures err.Some? <==> Move(before, selfId, targetId, position).Failure?
    ensures err.Some? ==> after == before && Move(before, selfId, targetId, position) == Failure(err.value)
    ensures err.None? ==> after == Move(before, selfId, targetId, position).value
    ensures err.None? && WellFormed(before) ==> WellFormed(after)
  {
    if err.None? && WellFormed(before) {
      MovePreservesWellFormed(before, selfId, targetId, position);
    }
  }

  // ---------------------------------------------------------------------------
  // Which moves are refused, and what a successful one does

  /** On a well-formed table the overlap test holds exactly when the target is the moved
      node itself or one of its descendants. */
  lemma OverlapsIffInside(rows: seq<Row>, s: int, t: int)
    requires WellFormed(rows) && 0 <= s < |rows| && 0 <= t < |rows|
    ensures Overlaps(rows[s].left, rows[s].right, rows[t].left, rows[t].right) <==>
            (s == t || Encloses(rows[s], rows[t]))
  {
    if s != t {
      assert Nested(rows[s], rows[t]);
    }
  }

  /** The outcome of `move_to` for two persisted nodes of a well-formed table: moving a node
      into itself or below itself is refused, an unknown position is refused next, and every
      other move succeeds. */
  lemma MoveOutcome(rows: seq<Row>, selfId: int, targetId: int, position: Position)
    requires WellFormed(rows) && Persisted(rows, selfId) && Persisted(rows, targetId)
    ensures IndexOf(rows, selfId).Some? && IndexOf(rows, targetId).Some?
    ensures var s, t := IndexOf(rows, selfId).value, IndexOf(rows, targetId).value;
      var inside := s == t || Encloses(rows[s], rows[t]);
      && (Move(rows, selfId, targetId, position) == Failure(ImpossibleMove) <==> inside)
      && (Move(rows, selfId, targetId, position) == Failure(InvalidPosition) <==> !inside && position.Unknown?)
      && (Move(rows, selfId, targetId, position).Success? <==> !inside && !position.Unknown?)
  {
    var s, t := IndexOf(rows, selfId).value, IndexOf(rows, targetId).value;
    OverlapsIffInside(rows, s, t);
  }

  /** The same outcome stated on the rows themselves: moving the row at `s` relative to
      the row at `t` (each found by its own key, since keys are unique) is refused exactly
      when `t` is `s` or lies inside it. */
  lemma MoveOutcomeOfRows(rows: seq<Row>, s: int, t: int, position: Position)
    requires WellFormed(rows) && 0 <= s < |rows| && 0 <= t < |rows|
    ensures Move(rows, rows[s].id, rows[t].id, position) == Failure(ImpossibleMove) <==>
            (s == t || Encloses(rows[s], rows[t]))
    ensures Move(rows, rows[s].id, rows[t].id, position).Success? <==>
            !(s == t || Encloses(rows[s], rows[t])) && !position.Unknown?
  {
    IndexOfUnique(rows, s);
    IndexOfUnique(rows, t);
    MoveOutcome(rows, rows[s].id, rows[t].id, position);
  }

  /** Where a successful move puts the node: `:child` makes it the target's first child,
      `:left` puts it immediately before the target and `:right` immediately after, under the
      target's parent; its interval keeps its width. */
  lemma MovePlacement(rows: seq<Row>, selfId: int, targetId: int, position: Position)
    requires WellFormed(rows) && Move(rows, selfId, targetId, position).Success?
    ensures IndexOf(rows, selfId).Some? && IndexOf(rows, targetId).Some?
    ensures var s, t, after := IndexOf(rows, selfId).value, IndexOf(rows, targetId).value,
                              Move(rows, selfId, targetId, position).value;
      && |after| == |rows| && s != t
      && after[s].right - after[s].left == rows[s].right - rows[s].left
      && (position == Child ==>
            after[s].parentId == Some(rows[t].id) &&
            after[s].left == after[t].left + 1 && Encloses(after[t], after[s]))
      && (position == Left ==> after[s].parentId == rows[t].parentId && after[s].right + 1 == after[t].left)
      && (position == Right ==> after[s].parentId == rows[t].parentId && after[t].right + 1 == after[s].left)
  {
    SuccessIsLegal(rows, selfId, targetId, position);
    var s, t := IndexOf(rows, selfId).value, IndexOf(rows, targetId).value;
    LegalMoveFacts(rows, s, t, position, PlanMove(rows, selfId, targetId, position).value);
  }

  /** The moved subtree travels rigidly: every row inside it is shifted by the same amount
      as the moved node, and keeps its parent. */
  lemma MoveIsRigid(rows: seq<Row>, selfId: int, targetId: int, position: Position)
    requires WellFormed(rows) && Move(rows, selfId, targetId, position).Success?
    ensures IndexOf(rows, selfId).Some?
    ensures var s, after := IndexOf(rows, selfId).value, Move(rows, selfId, targetId, position).value;
      var d := after[s].left - rows[s].left;
      |after| == |rows| &&
      forall i :: 0 <= i < |rows| && Encloses(rows[s], rows[i]) ==>
        && after[i].left == rows[i].left + d && after[i].right == rows[i].right + d
        && after[i].parentId == rows[i].parentId
        && Encloses(after[s], after[i])
  {
    SuccessIsLegal(rows, selfId, targetId, position);
    var s, t := IndexOf(rows, selfId).value, IndexOf(rows, targetId).value;
    LegalMoveFacts(rows, s, t, position, PlanMove(rows, selfId, targetId, position).value);
  }

  /** What the UPDATE leaves alone: every key, every other row's parent, and every row whose
      endpoints lie before both the moved node and the target or after both. */
  lemma MoveFrame(rows: seq<Row>, selfId: int, targetId: int, position: Position)
    requires WellFormed(rows) && Move(rows, selfId, targetId, position).Success?
    ensures IndexOf(rows, selfId).Some? && IndexOf(rows, targetId).Some?
    ensures var s, t, after := IndexOf(rows, selfId).value, IndexOf(rows, targetId).value,
                              Move(rows, selfId, targetId, position).value;
      var lo := if rows[s].left <= rows[t].left then rows[s].left else rows[t].left;
      var hi := if rows[s].right >= rows[t].right then rows[s].right else rows[t].right;
      && |after| == |rows|
      && (forall i :: 0 <= i < |rows| ==> after[i].id == rows[i].id)
      && (forall i :: 0 <= i < |rows| && i != s ==> after[i].parentId == rows[i].parentId)
      && (forall i ::
            (0 <= i < |rows| && i != s &&
             (rows[i].left < lo || hi < rows[i].left) && (rows[i].right < lo || hi < rows[i].right))
            ==> after[i] == rows[i])
  {
    SuccessIsLegal(rows, selfId, targetId, position);
    var s, t := IndexOf(rows, selfId).value, IndexOf(rows, targetId).value;
    var u := PlanMove(rows, selfId, targetId, position).value;
    LegalMoveFacts(rows, s, t, position, u);
    EndpointsInRange(rows, s);
    EndpointsInRange(rows, t);
    Placement(rows[s].left, rows[s].right, rows[t].left, rows[t].right, position);
    var after := UpdatedTable(u, rows);
    forall i | 0 <= i < |rows| && i != s ensures after[i].parentId == rows[i].parentId {
      assert rows[i].id != rows[s].id;
    }
  }
}
