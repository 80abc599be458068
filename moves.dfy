/** `move_to` and its three entry points: validation and boundary arithmetic
    (a function of the table read at the start of the transaction), then one bulk
    conditional UPDATE that rewrites every row of the table in place. */
module Moves {
  import opened Forest
  import opened Boundaries

  /** Why a move is refused; every refusal happens before any row is written. */
  datatype MoveError =
    | NotPersisted     // 'You cannot move a new node'
    | TargetNotFound   // the target's reload finds no row
    | ImpossibleMove   // 'Impossible move, target node cannot be inside moved tree.'
    | InvalidPosition  // 'Position should be either child, left or right'

  datatype Result<T> = Success(value: T) | Failure(error: MoveError)

  /** Everything the UPDATE statement is built from. */
  datatype Update = Update(plan: Plan, movedId: int, newParent: Option<int>)

  /** `new_parent`: the target itself for `:child`, the target's parent (maybe NULL) otherwise. */
  function NewParent(target: Row, position: Position): (r: Option<int>)
    ensures position == Child ==> r == Some(target.id)
    ensures position != Child ==> r == target.parentId
  {
    if position == Child then Some(target.id) else target.parentId
  }

  /** The part of `move_to` before the UPDATE: the existence check, both reloads,
      the legality check, the bounds for the position and the new parent. */
  function PlanMove(rows: seq<Row>, selfId: int, targetId: int, position: Position): (r: Result<Update>)
    ensures !Persisted(rows, selfId) ==> r == Failure(NotPersisted)
    ensures Persisted(rows, selfId) && !Persisted(rows, targetId) ==> r == Failure(TargetNotFound)
    ensures r.Success? ==> !position.Unknown? && r.value.movedId == selfId
    ensures r.Success? ==> r.value.plan.newRight - r.value.plan.newLeft == r.value.plan.curRight - r.value.plan.curLeft
  {
    match IndexOf(rows, selfId)
    case None => Failure(NotPersisted)
    case Some(s) =>
      match IndexOf(rows, targetId)
      case None => Failure(TargetNotFound)
      case Some(t) =>
        var cur, target := rows[s], rows[t];
        if Overlaps(cur.left, cur.right, target.left, target.right) then Failure(ImpossibleMove)
        else
          match NewBounds(cur.left, cur.right, target.left, target.right, position)
          case None => Failure(InvalidPosition)
          case Some(plan) => Success(Update(plan, selfId, NewParent(target, position)))
  }

  /** The three CASE expressions of the UPDATE, applied to one row. */
  function UpdatedRow(u: Update, row: Row): (r: Row)
    ensures r.id == row.id
    ensures row.id != u.movedId ==> r.parentId == row.parentId
    ensures u.plan.Valid() && !u.plan.InWindow(row.left) && !u.plan.InWindow(row.right) ==>
              r.left == row.left && r.right == row.right
    ensures u.plan.Valid() && u.plan.InCurrent(row.left) && u.plan.InCurrent(row.right) ==>
              r.left - row.left == u.plan.Shift() && r.right - row.right == u.plan.Shift()
  {
    Row(row.id,
        if row.id == u.movedId then u.newParent else row.parentId,
        u.plan.Remap(row.left),
        u.plan.Remap(row.right))
  }

  /** The UPDATE applied to the whole table. */
  function UpdatedTable(u: Update, rows: seq<Row>): (r: seq<Row>)
    ensures |r| == |rows|
    ensures forall i :: 0 <= i < |rows| ==> r[i].id == rows[i].id
    ensures forall i :: 0 <= i < |rows| && rows[i].id != u.movedId ==> r[i].parentId == rows[i].parentId
  {
    seq(|rows|, i requires 0 <= i < |rows| => UpdatedRow(u, rows[i]))
  }

  /** The whole of `move_to` on a table value: a refusal leaves the table as it was. */
  function Move(rows: seq<Row>, selfId: int, targetId: int, position: Position): (r: Result<seq<Row>>)
    ensures r.Failure? <==> PlanMove(rows, selfId, targetId, position).Failure?
    ensures !Persisted(rows, selfId) ==> r == Failure(NotPersisted)
    ensures Persisted(rows, selfId) && !Persisted(rows, targetId) ==> r == Failure(TargetNotFound)
    ensures r.Success? ==> !position.Unknown? && |r.value| == |rows|
    ensures r.Success? ==> forall i :: 0 <= i < |rows| ==> r.value[i].id == rows[i].id
    ensures r.Success? ==> forall i :: 0 <= i < |rows| && rows[i].id != selfId ==> r.value[i].parentId == rows[i].parentId
  {
    match PlanMove(rows, selfId, targetId, position)
    case Failure(e) => Failure(e)
    case Success(u) => Success(UpdatedTable(u, rows))
  }

  /** The state after a call whose outcome is `err`, as `Move` prescribes. */
  ghost predicate Committed(before: seq<Row>, after: seq<Row>, err: Option<MoveError>,
                            selfId: int, targetId: int, position: Position) {
    match Move(before, selfId, targetId, position)
    case Success(moved) => err == None && after == moved
    case Failure(e) => err == Some(e) && after == before
  }

  /** The bulk conditional UPDATE, one row at a time. */
  method BulkUpdate(table: array<Row>, u: Update)
    modifies table
    ensures table[..] == UpdatedTable(u, old(table[..]))
  {
    var i := 0;
    while i < table.Length
      invariant 0 <= i <= table.Length
      invariant forall k :: 0 <= k < i ==> table[k] == UpdatedRow(u, old(table[k]))
      invariant forall k :: i <= k < table.Length ==> table[k] == old(table[k])
    {
      table[i] := UpdatedRow(u, table[i]);
      i := i + 1;
    }
  }

  /** `move_to(target, position)` on the node whose key is `selfId`. */
  method MoveTo(table: array<Row>, selfId: int, targetId: int, position: Position)
    returns (err: Option<MoveError>)
    modifies table
    ensures Committed(old(table[..]), table[..], err, selfId, targetId, position)
  {
    match PlanMove(table[..], selfId, targetId, position)
    case Failure(e) =>
      err := Some(e);
    case Success(u) =>
      BulkUpdate(table, u);
      err := None;
  }

  method MoveToChildOf(table: array<Row>, selfId: int, targetId: int) returns (err: Option<MoveError>)
    modifies table
    ensures Committed(old(table[..]), table[..], err, selfId, targetId, Child)
  {
    err := MoveTo(table, selfId, targetId, Child);
  }

  method MoveToLeftOf(table: array<Row>, selfId: int, targetId: int) returns (err: Option<MoveError>)
    modifies table
    ensures Committed(old(table[..]), table[..], err, selfId, targetId, Left)
  {
    err := MoveTo(table, selfId, targetId, Left);
  }

  method MoveToRightOf(table: array<Row>, selfId: int, targetId: int) returns (err: Option<MoveError>)
    modifies table
    ensures Committed(old(table[..]), table[..], err, selfId, targetId, Right)
  {
    err := MoveTo(table, selfId, targetId, Right);
  }

  /** `parent = node` is `move_to_child_of(node)`. */
  method SetParent(table: array<Row>, selfId: int, parentId: int) returns (err: Option<MoveError>)
    modifies table
    ensures Committed(old(table[..]), table[..], err, selfId, parentId, Child)
  {
    err := MoveToChildOf(table, selfId, parentId);
  }
}
