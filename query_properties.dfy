/** What the interval queries mean on a well-formed table: roots are the rows nothing
    encloses, the innermost ancestor is the parent, `children` are the direct
    descendants, `level` counts ancestors and `children_count` counts all descendants. */
module QueryProperties {
  import opened Forest
  import opened Queries

  lemma IndexOfRow(rows: seq<Row>, x: Row) returns (i: int)
    requires x in rows
    ensures 0 <= i < |rows| && rows[i] == x
  {
    i :| 0 <= i < |rows| && rows[i] == x;
  }

  /** A row is a root exactly when no row encloses it. */
  lemma RootsAreUnenclosed(rows: seq<Row>)
    requires WellFormed(rows)
    ensures forall x :: x in Roots(rows) <==> x in rows && forall y :: y in rows ==> !Encloses(y, x)
  {
    forall x | x in rows ensures x.parentId == None <==> forall y :: y in rows ==> !Encloses(y, x) {
      var i := IndexOfRow(rows, x);
      assert ParentOk(rows, i);
      if x.parentId == None {
        forall y | y in rows ensures !Encloses(y, x) {
          var k := IndexOfRow(rows, y);
        }
      } else {
        var j :| 0 <= j < |rows| && rows[j].id == x.parentId.value && IsTightest(rows, j, i);
        assert rows[j] in rows;
      }
    }
  }

  /** `root` is the row whose interval starts at 1. */
  lemma RootStartsAtOne(rows: seq<Row>)
    requires WellFormed(rows) && |rows| > 0
    ensures Root(rows).Some? && Root(rows).value.left == 1
  {
    assert IsEndpoint(rows, 1);
    var i :| 0 <= i < |rows| && (rows[i].left == 1 || rows[i].right == 1);
    EndpointsInRange(rows, i);
    assert ParentOk(rows, i);
    forall k | 0 <= k < |rows| ensures !Encloses(rows[k], rows[i]) {
      EndpointsInRange(rows, k);
    }
    assert rows[i].parentId == None;
    var r := Root(rows).value;
    var k := IndexOfRow(rows, r);
    EndpointsInRange(rows, k);
  }

  /** A filter no row matches selects nothing. */
  lemma {:induction false} WhereEmpty(rows: seq<Row>, f: Filter)
    requires forall x :: x in rows ==> !Matches(f, x)
    ensures Where(rows, f) == []
  {
    if rows != [] {
      assert forall x :: x in rows[1..] ==> x in rows;
      WhereEmpty(rows[1..], f);
    }
  }

  /** `level` is the number of ancestors for roots too. */
  lemma LevelCountsAncestors(rows: seq<Row>, self: Row)
    requires WellFormed(rows) && self in rows
    ensures Level(rows, self) == Some(|Ancestors(rows, self).value|)
  {
    var s := IndexOfRow(rows, self);
    assert Persisted(rows, self.id) by { assert rows[s].id == self.id; }
    assert ParentOk(rows, s);
    if self.parentId == None {
      forall x | x in rows ensures !Encloses(x, self) {
        var k := IndexOfRow(rows, x);
      }
      WhereEmpty(rows, AncestorsOf(self.left, self.right));
    }
  }

  /** Every other row enclosing a row also encloses its innermost encloser. */
  lemma TightestIsInnermost(rows: seq<Row>, j: int, i: int)
    requires WellFormed(rows)
    requires 0 <= j < |rows| && 0 <= i < |rows| && IsTightest(rows, j, i)
    ensures forall k :: 0 <= k < |rows| && k != j && Encloses(rows[k], rows[i]) ==> Encloses(rows[k], rows[j])
  {
    forall k | 0 <= k < |rows| && k != j && Encloses(rows[k], rows[i]) ensures Encloses(rows[k], rows[j]) {
      assert Nested(rows[k], rows[j]);
    }
  }

  /** `parent` finds the innermost encloser. */
  lemma ParentIsTightest(rows: seq<Row>, s: int, j: int)
    requires WellFormed(rows) && 0 <= s < |rows| && 0 <= j < |rows|
    requires rows[s].parentId.Some? && rows[j].id == rows[s].parentId.value
    ensures Parent(rows, rows[s]) == Some(rows[j])
  {
    assert rows[j] in rows;
    var par := Parent(rows, rows[s]).value;
    var pj := IndexOfRow(rows, par);
  }

  /** In a `left`-ordered list of the enclosers, the innermost one comes last. */
  lemma TightestIsLast(rows: seq<Row>, s: int, j: int, a: seq<Row>)
    requires WellFormed(rows) && 0 <= s < |rows| && 0 <= j < |rows| && IsTightest(rows, j, s)
    requires SortedByLeft(a) && forall x :: x in a <==> x in rows && Encloses(x, rows[s])
    ensures a != [] && a[|a| - 1] == rows[j]
  {
    assert rows[j] in a;
    var m :| 0 <= m < |a| && a[m] == rows[j];
    var last := a[|a| - 1];
    assert a[m].left <= last.left;
    var lk := IndexOfRow(rows, last);
    TightestIsInnermost(rows, j, s);
  }

  /** `parent` is the last (innermost) entry of `ancestors`. */
  lemma ParentIsLastAncestor(rows: seq<Row>, self: Row)
    requires WellFormed(rows) && self in rows && self.parentId != None
    ensures Parent(rows, self).Some?
    ensures Ancestors(rows, self).value != []
    ensures Parent(rows, self).value == Ancestors(rows, self).value[|Ancestors(rows, self).value| - 1]
  {
    var s := IndexOfRow(rows, self);
    assert Persisted(rows, self.id) by { assert rows[s].id == self.id; }
    assert ParentOk(rows, s);
    var j :| 0 <= j < |rows| && rows[j].id == self.parentId.value && IsTightest(rows, j, s);
    ParentIsTightest(rows, s, j);
    TightestIsLast(rows, s, j, Ancestors(rows, self).value);
  }

  /** `children` are exactly the rows whose innermost encloser is this node. */
  lemma ChildrenAreDirectDescendants(rows: seq<Row>, s: int)
    requires WellFormed(rows) && 0 <= s < |rows|
    ensures forall i :: 0 <= i < |rows| ==> (rows[i] in Children(rows, rows[s]).value <==> IsTightest(rows, s, i))
  {
    assert rows[s] in rows;
    forall i | 0 <= i < |rows| ensures rows[i].parentId == Some(rows[s].id) <==> IsTightest(rows, s, i) {
      assert ParentOk(rows, i);
      if IsTightest(rows, s, i) {
        assert rows[i].parentId != None;
        var j :| 0 <= j < |rows| && rows[j].id == rows[i].parentId.value && IsTightest(rows, j, i);
        TightestIsInnermost(rows, j, i);
        assert j == s;
      }
    }
  }

  /** Two siblings never nest: a sibling's interval is apart from this node's. */
  lemma SiblingsAreApart(rows: seq<Row>, self: Row)
    requires WellFormed(rows) && self in rows
    ensures forall x :: x in Siblings(rows, self).value ==> Apart(x, self)
    ensures forall x :: x in SelfAndSiblings(rows, self).value <==> x == self || x in Siblings(rows, self).value
  {
    var s := IndexOfRow(rows, self);
    forall x | x in Siblings(rows, self).value ensures Apart(x, self) {
      var k := IndexOfRow(rows, x);
      assert k != s;
      assert Nested(rows[k], rows[s]);
      assert ParentOk(rows, k) && ParentOk(rows, s);
      if self.parentId != None {
        var j :| 0 <= j < |rows| && rows[j].id == self.parentId.value && IsTightest(rows, j, s);
        var j' :| 0 <= j' < |rows| && rows[j'].id == self.parentId.value && IsTightest(rows, j', k);
        assert j == j';
      }
    }
    forall x | x in rows && x.id == self.id ensures x == self {
      var k := IndexOfRow(rows, x);
    }
  }

  /** `self_and_ancestors` and `full_set` add exactly the node itself. */
  lemma SelfAndQueriesAddSelf(rows: seq<Row>, self: Row)
    requires WellFormed(rows) && self in rows
    ensures forall x :: x in SelfAndAncestors(rows, self).value <==> x == self || x in Ancestors(rows, self).value
    ensures forall x :: x in FullSet(rows, self).value <==> x == self || x in AllChildren(rows, self).value
  {
    var s := IndexOfRow(rows, self);
    forall x | x in rows && x != self
      ensures (x.left <= self.left && self.right <= x.right) <==> Encloses(x, self)
      ensures (self.left <= x.left && x.right <= self.right) <==> Encloses(self, x)
    {
      var k := IndexOfRow(rows, x);
      assert Nested(rows[k], rows[s]);
    }
  }

  // ---------------------------------------------------------------------------
  // children_count counts every descendant

  /** Number of endpoints strictly between `lo` and `hi`. */
  function CountIn(rows: seq<Row>, lo: int, hi: int): nat {
    if rows == [] then 0
    else (if lo < rows[0].left < hi then 1 else 0) + (if lo < rows[0].right < hi then 1 else 0)
         + CountIn(rows[1..], lo, hi)
  }

  /** The integers strictly between `lo` and `hi`. */
  function Between(lo: int, hi: int): (r: set<int>)
    ensures forall v :: v in r <==> lo < v < hi
    ensures lo < hi ==> |r| == hi - lo - 1
    decreases hi - lo
  {
    if hi <= lo + 1 then {} else Between(lo, hi - 1) + {hi - 1}
  }

  function EndpointsBetween(rows: seq<Row>, lo: int, hi: int): set<int> {
    set v | v in Between(lo, hi) && IsEndpoint(rows, v)
  }

  /** The endpoints of one row strictly between `lo` and `hi`. */
  function OwnBetween(h: Row, lo: int, hi: int): (r: set<int>)
    ensures forall v :: v in r <==> lo < v < hi && (v == h.left || v == h.right)
    ensures h.left != h.right ==>
      |r| == (if lo < h.left < hi then 1 else 0) + (if lo < h.right < hi then 1 else 0)
  {
    (if lo < h.left < hi then {h.left} else {}) + (if lo < h.right < hi then {h.right} else {})
  }

  predicate DistinctEndpoints(rows: seq<Row>) {
    && (forall i :: 0 <= i < |rows| ==> rows[i].left != rows[i].right)
    && (forall i, j :: 0 <= i < |rows| && 0 <= j < |rows| && i != j ==>
          rows[i].left != rows[j].left && rows[i].left != rows[j].right && rows[i].right != rows[j].right)
  }

  /** Dropping the first row keeps the endpoints distinct, and none of the remaining rows
      shares an endpoint with the dropped one. */
  lemma TailDistinct(rows: seq<Row>)
    requires DistinctEndpoints(rows) && rows != []
    ensures DistinctEndpoints(rows[1..])
    ensures !IsEndpoint(rows[1..], rows[0].left) && !IsEndpoint(rows[1..], rows[0].right)
  {
    var tail := rows[1..];
    forall i | 0 <= i < |tail|
      ensures tail[i] == rows[i + 1]
      ensures tail[i].left != rows[0].left && tail[i].left != rows[0].right
      ensures tail[i].right != rows[0].left && tail[i].right != rows[0].right
    {
      assert 0 != i + 1;
    }
    forall i, j | 0 <= i < |tail| && 0 <= j < |tail| && i != j
      ensures tail[i].left != tail[j].left && tail[i].left != tail[j].right && tail[i].right != tail[j].right
    {
      assert i + 1 != j + 1;
    }
  }

  lemma EndpointsSplit(rows: seq<Row>, lo: int, hi: int)
    requires rows != []
    ensures EndpointsBetween(rows, lo, hi) == EndpointsBetween(rows[1..], lo, hi) + OwnBetween(rows[0], lo, hi)
  {
    var tail, h := rows[1..], rows[0];
    forall v ensures IsEndpoint(rows, v) <==> v == h.left || v == h.right || IsEndpoint(tail, v) {
      if IsEndpoint(rows, v) && v != h.left && v != h.right {
        var i :| 0 <= i < |rows| && (rows[i].left == v || rows[i].right == v);
        assert tail[i - 1] == rows[i];
      }
      if IsEndpoint(tail, v) {
        var i :| 0 <= i < |tail| && (tail[i].left == v || tail[i].right == v);
        assert rows[i + 1] == tail[i];
      }
    }
  }

  /** With distinct endpoints, counting endpoints in a range is the size of their set. */
  lemma {:induction false} CountInIsSetSize(rows: seq<Row>, lo: int, hi: int)
    requires DistinctEndpoints(rows)
    ensures CountIn(rows, lo, hi) == |EndpointsBetween(rows, lo, hi)|
  {
    if rows == [] {
      assert EndpointsBetween(rows, lo, hi) == {};
    } else {
      TailDistinct(rows);
      CountInIsSetSize(rows[1..], lo, hi);
      EndpointsSplit(rows, lo, hi);
      var rest, own := EndpointsBetween(rows[1..], lo, hi), OwnBetween(rows[0], lo, hi);
      assert rest !! own;
    }
  }

  /** Every row has both endpoints strictly inside (lo, hi) or neither: the count is
      twice the number of rows `all_children` selects. */
  lemma {:induction false} CountInIsTwiceDescendants(rows: seq<Row>, lo: int, hi: int)
    requires forall i :: 0 <= i < |rows| ==>
               rows[i].left < rows[i].right && ((lo < rows[i].left < hi) == (lo < rows[i].right < hi))
    ensures CountIn(rows, lo, hi) == 2 * |Where(rows, AllChildrenOf(lo, hi))|
  {
    if rows != [] {
      assert forall i :: 0 <= i < |rows[1..]| ==> rows[1..][i] == rows[i + 1];
      CountInIsTwiceDescendants(rows[1..], lo, hi);
    }
  }

  lemma WellFormedDistinct(rows: seq<Row>)
    requires WellFormed(rows)
    ensures DistinctEndpoints(rows)
  {
    forall i, j | 0 <= i < |rows| && 0 <= j < |rows| && i != j
      ensures rows[i].left != rows[j].left && rows[i].left != rows[j].right && rows[i].right != rows[j].right
    {
      assert Nested(rows[i], rows[j]);
    }
  }

  /** Every row other than `self` lies entirely inside or entirely outside its interval. */
  lemma InsideOrOutside(rows: seq<Row>, s: int)
    requires WellFormed(rows) && 0 <= s < |rows|
    ensures forall i :: 0 <= i < |rows| ==>
              rows[i].left < rows[i].right &&
              ((rows[s].left < rows[i].left < rows[s].right) == (rows[s].left < rows[i].right < rows[s].right))
  {
    forall i | 0 <= i < |rows|
      ensures rows[i].left < rows[i].right &&
        ((rows[s].left < rows[i].left < rows[s].right) == (rows[s].left < rows[i].right < rows[s].right))
    {
      if i != s {
        assert Nested(rows[i], rows[s]);
      }
    }
  }

  /** With no gaps, every value strictly inside a row's interval is an endpoint. */
  lemma InteriorIsFull(rows: seq<Row>, s: int)
    requires WellFormed(rows) && 0 <= s < |rows|
    ensures EndpointsBetween(rows, rows[s].left, rows[s].right) == Between(rows[s].left, rows[s].right)
  {
    EndpointsInRange(rows, s);
  }

  /** The interior of a row's interval holds exactly two endpoints per descendant. */
  lemma InteriorWidth(rows: seq<Row>, s: int)
    requires WellFormed(rows) && 0 <= s < |rows|
    ensures rows[s].right - rows[s].left - 1 == 2 * |Where(rows, AllChildrenOf(rows[s].left, rows[s].right))|
  {
    var lo, hi := rows[s].left, rows[s].right;
    InsideOrOutside(rows, s);
    CountInIsTwiceDescendants(rows, lo, hi);
    WellFormedDistinct(rows);
    CountInIsSetSize(rows, lo, hi);
    InteriorIsFull(rows, s);
  }

  /** `children_count` is the number of all descendants, not just of direct children. */
  lemma ChildrenCountCountsDescendants(rows: seq<Row>, self: Row)
    requires WellFormed(rows) && self in rows
    ensures ChildrenCount(rows, self) == Some(|AllChildren(rows, self).value|)
  {
    var s := IndexOfRow(rows, self);
    assert Persisted(rows, self.id) by { assert rows[s].id == self.id; }
    InteriorWidth(rows, s);
  }
}
