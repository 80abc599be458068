/** The nested-set table.  Every node of the forest is one row: its primary key,
    the key of its parent (SQL NULL for a root) and the pair (left, right). */
module Forest {

  datatype Option<T> = None | Some(value: T)

  /** One row of the table.  `parentId == None` is a NULL `parent_id`: a root. */
  datatype Row = Row(id: int, parentId: Option<int>, left: int, right: int)

  /** The interval of `a` strictly encloses that of `b`: `a` is a strict ancestor of `b`. */
  predicate Encloses(a: Row, b: Row) {
    a.left < b.left && b.right < a.right
  }

  /** The two intervals do not meet. */
  predicate Apart(a: Row, b: Row) {
    a.right < b.left || b.right < a.left
  }

  /** Two intervals of a nested set are either apart or one encloses the other. */
  predicate Nested(a: Row, b: Row) {
    Apart(a, b) || Encloses(a, b) || Encloses(b, a)
  }

  /** Some row of the table has primary key `id` (Sequel's `exists?`). */
  predicate Persisted(rows: seq<Row>, id: int) {
    exists i :: 0 <= i < |rows| && rows[i].id == id
  }

  /** The position of the row with primary key `id` (a reload by primary key). */
  function IndexOf(rows: seq<Row>, id: int): (r: Option<nat>)
    ensures r.None? <==> !Persisted(rows, id)
    ensures r.Some? ==> r.value < |rows| && rows[r.value].id == id
  {
    if |rows| == 0 then None
    else if rows[0].id == id then Some(0)
    else
      match IndexOf(rows[1..], id)
      case None =>
        assert forall i :: 1 <= i < |rows| ==> rows[i] == rows[1..][i - 1];
        None
      case Some(i) => Some(i + 1)
  }

  // ---------------------------------------------------------------------------
  // Well-formedness of a committed table

  predicate UniqueIds(rows: seq<Row>) {
    forall i, j :: 0 <= i < |rows| && 0 <= j < |rows| && rows[i].id == rows[j].id ==> i == j
  }

  /** Every interval has `left < right`. */
  predicate ProperIntervals(rows: seq<Row>) {
    forall i :: 0 <= i < |rows| ==> rows[i].left < rows[i].right
  }

  /** Any two distinct rows are apart or nested (which also makes all endpoints distinct). */
  predicate Laminar(rows: seq<Row>) {
    forall i, j :: 0 <= i < |rows| && 0 <= j < |rows| && i != j ==> Nested(rows[i], rows[j])
  }

  predicate IsEndpoint(rows: seq<Row>, v: int) {
    exists i :: 0 <= i < |rows| && (rows[i].left == v || rows[i].right == v)
  }

  /** The endpoints are exactly 1 .. 2N for N rows. */
  ghost predicate GapFree(rows: seq<Row>) {
    forall v :: IsEndpoint(rows, v) <==> 1 <= v <= 2 * |rows|
  }

  /** Row `j` encloses row `i` and no row lies strictly between them. */
  predicate IsTightest(rows: seq<Row>, j: int, i: int)
    requires 0 <= j < |rows| && 0 <= i < |rows|
  {
    && Encloses(rows[j], rows[i])
    && forall k :: 0 <= k < |rows| ==> !(Encloses(rows[j], rows[k]) && Encloses(rows[k], rows[i]))
  }

  /** `parent_id` agrees with the intervals: NULL exactly when nothing encloses the row,
      otherwise the key of the innermost enclosing row. */
  predicate ParentOk(rows: seq<Row>, i: int)
    requires 0 <= i < |rows|
  {
    match rows[i].parentId
    case None => forall k :: 0 <= k < |rows| ==> !Encloses(rows[k], rows[i])
    case Some(p) => exists j :: 0 <= j < |rows| && rows[j].id == p && IsTightest(rows, j, i)
  }

  predicate ParentsConsistent(rows: seq<Row>) {
    forall i :: 0 <= i < |rows| ==> ParentOk(rows, i)
  }

  /** The invariants every committed state of the table keeps. */
  ghost predicate WellFormed(rows: seq<Row>) {
    && UniqueIds(rows)
    && ProperIntervals(rows)
    && Laminar(rows)
    && GapFree(rows)
    && ParentsConsistent(rows)
  }

  /** In a well-formed table every endpoint lies in 1 .. 2N. */
  lemma EndpointsInRange(rows: seq<Row>, i: int)
    requires WellFormed(rows) && 0 <= i < |rows|
    ensures 1 <= rows[i].left < rows[i].right <= 2 * |rows|
  {
    assert IsEndpoint(rows, rows[i].left);
    assert IsEndpoint(rows, rows[i].right);
  }
}
