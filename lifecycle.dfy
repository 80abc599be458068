/** Creating a node: `before_create` gives the new row the two endpoints just to the
    right of everything in the table, so every created node starts out as the last root. */
module Lifecycle {
  import opened Forest

  /** `dataset.max(right)`: `None` (SQL NULL) on an empty table. */
  function MaxRight(rows: seq<Row>): (r: Option<int>)
    ensures r.None? <==> rows == []
    ensures r.Some? ==> forall i :: 0 <= i < |rows| ==> rows[i].right <= r.value
    ensures r.Some? ==> exists i :: 0 <= i < |rows| && rows[i].right == r.value
  {
    if rows == [] then None
    else
      var tail := rows[1..];
      assert forall i :: 0 <= i < |tail| ==> tail[i] == rows[i + 1];
      match MaxRight(tail)
      case None => Some(rows[0].right)
      case Some(m) =>
        var k :| 0 <= k < |tail| && tail[k].right == m;
        assert rows[k + 1].right == m;
        Some(if rows[0].right >= m then rows[0].right else m)
  }

  /** `max(right).to_i + 1`: NULL becomes 0, so the first row of an empty table starts at 1. */
  function CreationLeft(rows: seq<Row>): (l: int)
    ensures forall i :: 0 <= i < |rows| ==> rows[i].right < l
    ensures rows == [] ==> l == 1
    ensures rows != [] ==> exists i :: 0 <= i < |rows| && rows[i].right == l - 1
  {
    match MaxRight(rows)
    case None => 1
    case Some(m) => m + 1
  }

  /** A model object that may not have a row yet; `left` and `right` are `None` (nil)
      until `before_create` fills them in. */
  class NewNode {
    var id: int
    var parentId: Option<int>
    var left: Option<int>
    var right: Option<int>

    constructor(id: int, parentId: Option<int>)
      ensures this.id == id && this.parentId == parentId && left == None && right == None
    {
      this.id := id;
      this.parentId := parentId;
      left := None;
      right := None;
    }

    /** `before_create`: the bounds come from the table the INSERT goes into. */
    method BeforeCreate(rows: seq<Row>)
      modifies this
      ensures left == Some(CreationLeft(rows)) && right == Some(CreationLeft(rows) + 1)
      ensures id == old(id) && parentId == old(parentId)
    {
      var l := match MaxRight(rows) case None => 0 case Some(m) => m;
      left := Some(l + 1);
      right := Some(l + 2);
    }

    /** The row the INSERT writes once the bounds are set. */
    function AsRow(): (r: Row)
      reads this
      requires left.Some? && right.Some?
    {
      Row(id, parentId, left.value, right.value)
    }

    /** `save` of a new object: `before_create` sets the bounds, then the INSERT appends the
        object's row. The result is the table `Created` describes, so a parentless node
        with a fresh key leaves a well-formed table well-formed. */
    method Create(rows: seq<Row>) returns (r: seq<Row>)
      modifies this
      ensures r == Created(rows, old(id), old(parentId))
      ensures WellFormed(rows) && old(parentId) == None && !Persisted(rows, old(id)) ==> WellFormed(r)
      ensures id == old(id) && parentId == old(parentId)
      ensures left == Some(CreationLeft(rows)) && right == Some(CreationLeft(rows) + 1)
    {
      BeforeCreate(rows);
      r := rows + [AsRow()];
      if WellFormed(rows) && parentId == None && !Persisted(rows, id) {
        CreatePreservesWellFormed(rows, id);
      }
    }
  }

  /** The table after creating a node with key `id` and the given `parent_id`. */
  function Created(rows: seq<Row>, id: int, parentId: Option<int>): (r: seq<Row>)
    ensures |r| == |rows| + 1 && r[..|rows|] == rows
    ensures r[|rows|] == Row(id, parentId, CreationLeft(rows), CreationLeft(rows) + 1)
  {
    rows + [Row(id, parentId, CreationLeft(rows), CreationLeft(rows) + 1)]
  }

  /** On a well-formed table the largest `right` is 2N, so the new row is (2N+1, 2N+2). */
  lemma CreationLeftOfWellFormed(rows: seq<Row>)
    requires WellFormed(rows)
    ensures CreationLeft(rows) == 2 * |rows| + 1
  {
    if rows != [] {
      var i :| 0 <= i < |rows| && rows[i].right == CreationLeft(rows) - 1;
      EndpointsInRange(rows, i);
      assert IsEndpoint(rows, 2 * |rows|);
      var j :| 0 <= j < |rows| && (rows[j].left == 2 * |rows| || rows[j].right == 2 * |rows|);
      EndpointsInRange(rows, j);
    }
  }

  /** The new row lies to the right of every old row. */
  lemma CreatedApart(rows: seq<Row>, id: int)
    requires WellFormed(rows)
    ensures var r := Created(rows, id, None);
      && r[|rows|] == Row(id, None, 2 * |rows| + 1, 2 * |rows| + 2)
      && forall i :: 0 <= i < |rows| ==> r[i] == rows[i] && Apart(r[i], r[|rows|])
  {
    CreationLeftOfWellFormed(rows);
    var r := Created(rows, id, None);
    forall i | 0 <= i < |rows| ensures r[i] == rows[i] && Apart(r[i], r[|rows|]) {
      EndpointsInRange(rows, i);
    }
  }

  /** The endpoints of the created table run on without a gap to 2(N+1). */
  lemma CreatedGapFree(rows: seq<Row>, id: int)
    requires WellFormed(rows)
    ensures GapFree(Created(rows, id, None))
  {
    CreatedApart(rows, id);
    var n := |rows|;
    var r := Created(rows, id, None);
    forall v ensures IsEndpoint(r, v) <==> 1 <= v <= 2 * (n + 1) {
      if IsEndpoint(r, v) {
        var i :| 0 <= i < n + 1 && (r[i].left == v || r[i].right == v);
        if i < n {
          EndpointsInRange(rows, i);
        }
      }
      if 1 <= v <= 2 * n {
        assert IsEndpoint(rows, v);
        var i :| 0 <= i < n && (rows[i].left == v || rows[i].right == v);
        assert r[i] == rows[i];
      }
      if 2 * n < v <= 2 * (n + 1) {
        assert r[n].left == v || r[n].right == v;
      }
    }
  }

  /** Every parent stays correct: the new row encloses nothing and nothing encloses it. */
  lemma CreatedParents(rows: seq<Row>, id: int)
    requires WellFormed(rows)
    ensures ParentsConsistent(Created(rows, id, None))
  {
    CreatedApart(rows, id);
    var n := |rows|;
    var r := Created(rows, id, None);
    forall i | 0 <= i < n + 1 ensures ParentOk(r, i) {
      if i < n {
        assert ParentOk(rows, i);
        match rows[i].parentId
        case None =>
        case Some(p) =>
          var j :| 0 <= j < n && rows[j].id == p && IsTightest(rows, j, i);
          assert r[j].id == p && IsTightest(r, j, i);
      }
    }
  }

  /** Creating a parentless node with a fresh key keeps the table well-formed: the new
      row is a root enclosing nothing, and the endpoints run on without a gap. */
  lemma CreatePreservesWellFormed(rows: seq<Row>, id: int)
    requires WellFormed(rows) && !Persisted(rows, id)
    ensures WellFormed(Created(rows, id, None))
  {
    CreatedApart(rows, id);
    CreatedGapFree(rows, id);
    CreatedParents(rows, id);
  }
}
