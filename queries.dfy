/** The structural queries.  Each accessor builds one filter from the node's own
    `(id, parent_id, left, right)` and scans the table; every scan comes back ordered
    by `left`, the order the model's dataset is given.  An accessor called on a node
    that has no row in the table answers `None` (Ruby's `nil`) instead of a query. */
module Queries {
  import opened Forest

  /** The filter each accessor hands to the dataset. */
  datatype Filter =
    | AncestorsOf(left: int, right: int)
    | SelfAndAncestorsOf(left: int, right: int)
    | SiblingsOf(id: int, parentId: Option<int>)
    | SelfAndSiblingsOf(id: int, parentId: Option<int>)
    | ChildrenOf(id: int)
    | AllChildrenOf(left: int, right: int)
    | FullSetOf(left: int, right: int)
    | RootsOnly
    | WithKey(key: Option<int>)

  /** The WHERE clause of each filter.  A NULL compared with `=` is `IS NULL` in Sequel,
      so equality on `Option` is exact. */
  predicate Matches(f: Filter, x: Row) {
    match f
    case AncestorsOf(l, r) => x.left < l && x.right > r
    case SelfAndAncestorsOf(l, r) => x.left <= l && x.right >= r
    case SiblingsOf(id, pid) => x.id != id && x.parentId == pid
    case SelfAndSiblingsOf(id, pid) => x.id == id || x.parentId == pid
    case ChildrenOf(id) => x.parentId == Some(id)
    case AllChildrenOf(l, r) => x.left > l && x.right < r
    case FullSetOf(l, r) => x.left >= l && x.right <= r
    case RootsOnly => x.parentId == None
    case WithKey(k) => Some(x.id) == k
  }

  /** The matching rows, in table order, each as often as it occurs in the table. */
  function Where(rows: seq<Row>, f: Filter): (r: seq<Row>)
    ensures forall x :: x in r <==> x in rows && Matches(f, x)
    ensures |r| <= |rows|
  {
    if rows == [] then []
    else (if Matches(f, rows[0]) then [rows[0]] else []) + Where(rows[1..], f)
  }

  /** `Where` keeps every matching row as often as the table holds it, and no other row. */
  lemma {:induction false} WhereCounts(rows: seq<Row>, f: Filter)
    ensures forall x :: multiset(Where(rows, f))[x] == if Matches(f, x) then multiset(rows)[x] else 0
  {
    if rows != [] {
      assert rows == [rows[0]] + rows[1..];
      WhereCounts(rows[1..], f);
    }
  }

  /** A scan holds every matching row as often as the table does, and no other row. */
  lemma SelectCounts(rows: seq<Row>, f: Filter)
    ensures forall x :: multiset(Select(rows, f))[x] == if Matches(f, x) then multiset(rows)[x] else 0
  {
    WhereCounts(rows, f);
  }

  predicate SortedByLeft(s: seq<Row>) {
    forall i, j :: 0 <= i < j < |s| ==> s[i].left <= s[j].left
  }

  lemma SortedCons(h: Row, t: seq<Row>)
    requires SortedByLeft(t)
    requires forall y :: y in t ==> h.left <= y.left
    ensures SortedByLeft([h] + t)
  {
    forall i, j | 0 <= i < j < |t| + 1 ensures ([h] + t)[i].left <= ([h] + t)[j].left {
      if i == 0 {
        assert ([h] + t)[j] == t[j - 1] && t[j - 1] in t;
      } else {
        assert ([h] + t)[i] == t[i - 1] && ([h] + t)[j] == t[j - 1];
      }
    }
  }

  function Insert(x: Row, s: seq<Row>): (r: seq<Row>)
    requires SortedByLeft(s)
    ensures SortedByLeft(r)
    ensures multiset(r) == multiset(s) + multiset{x}
  {
    if s == [] then [x]
    else if x.left <= s[0].left then
      SortedCons(x, s);
      [x] + s
    else
      var tail := Insert(x, s[1..]);
      assert s == [s[0]] + s[1..];
      forall y | y in tail ensures s[0].left <= y.left {
        assert y in multiset(tail);
        if y != x {
          assert y in multiset(s[1..]);
        }
      }
      SortedCons(s[0], tail);
      [s[0]] + tail
  }

  /** The rows ordered by `left`. */
  function SortByLeft(s: seq<Row>): (r: seq<Row>)
    ensures SortedByLeft(r)
    ensures multiset(r) == multiset(s)
  {
    if s == [] then []
    else
      assert s == [s[0]] + s[1..];
      Insert(s[0], SortByLeft(s[1..]))
  }

  /** One scan of the dataset: the matching rows ordered by `left`. */
  function Select(rows: seq<Row>, f: Filter): (r: seq<Row>)
    ensures SortedByLeft(r)
    ensures forall x :: x in r <==> x in rows && Matches(f, x)
    ensures multiset(r) == multiset(Where(rows, f)) && |r| == |Where(rows, f)|
  {
    var r := SortByLeft(Where(rows, f));
    assert forall x :: x in r <==> x in multiset(r);
    assert |multiset(r)| == |r| && |multiset(Where(rows, f))| == |Where(rows, f)|;
    r
  }

  // ---------------------------------------------------------------------------
  // Class-level queries

  /** `roots`: the rows with a NULL parent, by `left`. */
  function Roots(rows: seq<Row>): (r: seq<Row>)
    ensures SortedByLeft(r)
    ensures forall x :: x in r <==> x in rows && x.parentId == None
  {
    Select(rows, RootsOnly)
  }

  /** `root`: the first root by `left`, `None` when there is none. */
  function Root(rows: seq<Row>): (r: Option<Row>)
    ensures r.None? <==> forall x :: x in rows ==> x.parentId.Some?
    ensures r.Some? ==> r.value in rows && r.value.parentId == None
    ensures r.Some? ==> forall x :: x in rows && x.parentId == None ==> r.value.left <= x.left
  {
    var all := Roots(rows);
    if all == [] then None
    else
      assert forall x :: x in all ==> exists i :: 0 <= i < |all| && all[i] == x;
      Some(all[0])
  }

  // ---------------------------------------------------------------------------
  // Instance-level accessors; `self` is the node's own (in-memory) row

  /** `parent`: the row whose key is this node's `parent_id` (there is no existence guard:
      a NULL `parent_id` matches no key). */
  function Parent(rows: seq<Row>, self: Row): (r: Option<Row>)
    ensures r.None? <==> forall x :: x in rows ==> Some(x.id) != self.parentId
    ensures r.Some? ==> r.value in rows && Some(r.value.id) == self.parentId
  {
    var found := Select(rows, WithKey(self.parentId));
    if found == [] then None
    else
      assert forall x :: x in rows && Some(x.id) == self.parentId ==> x in found;
      assert found[0] in found;
      Some(found[0])
  }

  function Ancestors(rows: seq<Row>, self: Row): (r: Option<seq<Row>>)
    ensures r.None? <==> !Persisted(rows, self.id)
    ensures r.Some? ==> SortedByLeft(r.value)
    ensures r.Some? ==> forall x :: x in r.value <==> x in rows && Encloses(x, self)
  {
    if Persisted(rows, self.id) then Some(Select(rows, AncestorsOf(self.left, self.right))) else None
  }

  function SelfAndAncestors(rows: seq<Row>, self: Row): (r: Option<seq<Row>>)
    ensures r.None? <==> !Persisted(rows, self.id)
    ensures r.Some? ==> SortedByLeft(r.value)
    ensures r.Some? ==> forall x :: x in r.value <==> x in rows && x.left <= self.left && self.right <= x.right
  {
    if Persisted(rows, self.id) then Some(Select(rows, SelfAndAncestorsOf(self.left, self.right))) else None
  }

  function Siblings(rows: seq<Row>, self: Row): (r: Option<seq<Row>>)
    ensures r.None? <==> !Persisted(rows, self.id)
    ensures r.Some? ==> SortedByLeft(r.value)
    ensures r.Some? ==> forall x :: x in r.value <==> x in rows && x.id != self.id && x.parentId == self.parentId
  {
    if Persisted(rows, self.id) then Some(Select(rows, SiblingsOf(self.id, self.parentId))) else None
  }

  function SelfAndSiblings(rows: seq<Row>, self: Row): (r: Option<seq<Row>>)
    ensures r.None? <==> !Persisted(rows, self.id)
    ensures r.Some? ==> SortedByLeft(r.value)
    ensures r.Some? ==> forall x :: x in r.value <==> x in rows && (x.id == self.id || x.parentId == self.parentId)
  {
    if Persisted(rows, self.id) then Some(Select(rows, SelfAndSiblingsOf(self.id, self.parentId))) else None
  }

  function Children(rows: seq<Row>, self: Row): (r: Option<seq<Row>>)
    ensures r.None? <==> !Persisted(rows, self.id)
    ensures r.Some? ==> SortedByLeft(r.value)
    ensures r.Some? ==> forall x :: x in r.value <==> x in rows && x.parentId == Some(self.id)
  {
    if Persisted(rows, self.id) then Some(Select(rows, ChildrenOf(self.id))) else None
  }

  function AllChildren(rows: seq<Row>, self: Row): (r: Option<seq<Row>>)
    ensures r.None? <==> !Persisted(rows, self.id)
    ensures r.Some? ==> SortedByLeft(r.value)
    ensures r.Some? ==> forall x :: x in r.value <==> x in rows && Encloses(self, x)
  {
    if Persisted(rows, self.id) then Some(Select(rows, AllChildrenOf(self.left, self.right))) else None
  }

  function FullSet(rows: seq<Row>, self: Row): (r: Option<seq<Row>>)
    ensures r.None? <==> !Persisted(rows, self.id)
    ensures r.Some? ==> SortedByLeft(r.value)
    ensures r.Some? ==> forall x :: x in r.value <==> x in rows && self.left <= x.left && x.right <= self.right
  {
    if Persisted(rows, self.id) then Some(Select(rows, FullSetOf(self.left, self.right))) else None
  }

  /** `level`: 0 for a root, otherwise the number of ancestors. */
  function Level(rows: seq<Row>, self: Row): (r: Option<int>)
    ensures r.None? <==> !Persisted(rows, self.id)
    ensures r.Some? && self.parentId == None ==> r.value == 0
    ensures r.Some? && self.parentId != None ==> r.value == |Ancestors(rows, self).value|
  {
    if !Persisted(rows, self.id) then None
    else if self.parentId == None then Some(0)
    else Some(|Select(rows, AncestorsOf(self.left, self.right))|)
  }

  /** `children_count`: half the interior width, rounded down as Ruby's `/` does. */
  function ChildrenCount(rows: seq<Row>, self: Row): (r: Option<int>)
    ensures r.None? <==> !Persisted(rows, self.id)
    ensures r.Some? ==> 2 * r.value <= self.right - self.left - 1 < 2 * r.value + 2
  {
    if Persisted(rows, self.id) then Some((self.right - self.left - 1) / 2) else None
  }
}
