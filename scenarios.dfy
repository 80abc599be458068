/** Concrete tables from the plugin's own examples, worked through the model. */
module Scenarios {
  import opened Forest
  import opened Boundaries
  import opened Moves
  import opened MoveProperties
  import opened Queries
  import opened Lifecycle

  /** Three roots created one after another, keys 1, 2 and 3. */
  function ThreeRoots(): seq<Row> {
    [Row(1, None, 1, 2), Row(2, None, 3, 4), Row(3, None, 5, 6)]
  }

  /** Node 1 with child 2, then root 3. */
  function OneOverTwo(): seq<Row> {
    [Row(1, None, 1, 4), Row(2, Some(1), 2, 3), Row(3, None, 5, 6)]
  }

  /** Node 1 with children 3 and 2, in that order. */
  function OneOverThreeTwo(): seq<Row> {
    [Row(1, None, 1, 6), Row(2, Some(1), 4, 5), Row(3, Some(1), 2, 3)]
  }

  /** Creating three nodes in an empty table gives (1,2), (3,4), (5,6). */
  lemma CreateThree()
    ensures Created(Created(Created([], 1, None), 2, None), 3, None) == ThreeRoots()
  {
    var t1 := Created([], 1, None);
    assert t1 == [Row(1, None, 1, 2)];
    assert MaxRight(t1) == Some(2);
    var t2 := Created(t1, 2, None);
    assert t2 == [Row(1, None, 1, 2), Row(2, None, 3, 4)];
    assert t2[1..] == [Row(2, None, 3, 4)];
    assert MaxRight(t2) == Some(4);
  }

  /** Saving a fourth node object: `before_create` gives it (7,8) and the row is appended. */
  method CreateOnObject() returns (r: Row, t: seq<Row>)
    ensures r == Row(4, None, 7, 8)
    ensures t == ThreeRoots() + [r]
  {
    var node := new NewNode(4, None);
    var rows := ThreeRoots();
    assert rows[1..][1..] == [Row(3, None, 5, 6)];
    assert MaxRight(rows) == Some(6);
    t := node.Create(rows);
    r := node.AsRow();
  }

  /** The UPDATE on a three-row table, row by row. */
  lemma UpdateThree(u: Update, a: Row, b: Row, c: Row)
    ensures UpdatedTable(u, [a, b, c]) == [UpdatedRow(u, a), UpdatedRow(u, b), UpdatedRow(u, c)]
  {
  }

  lemma FirstIntoSecondPlan()
    ensures PlanMove(ThreeRoots(), 1, 2, Child) == Success(Update(Plan(1, 2, 2, 3), 1, Some(2)))
  {
    assert IndexOf(ThreeRoots(), 1) == Some(0) && IndexOf(ThreeRoots(), 2) == Some(1);
  }

  /** `node1.move_to_child_of(node2)` from three roots: node 2 spans (1,4) around node 1. */
  lemma FirstIntoSecond()
    ensures Move(ThreeRoots(), 1, 2, Child) ==
      Success([Row(1, Some(2), 2, 3), Row(2, None, 1, 4), Row(3, None, 5, 6)])
  {
    FirstIntoSecondPlan();
    UpdateThree(Update(Plan(1, 2, 2, 3), 1, Some(2)), Row(1, None, 1, 2), Row(2, None, 3, 4), Row(3, None, 5, 6));
  }

  lemma ThirdBecomesFirstChildPlan()
    ensures PlanMove(OneOverTwo(), 3, 1, Child) == Success(Update(Plan(5, 6, 2, 3), 3, Some(1)))
  {
    var rows := OneOverTwo();
    assert rows[1..][1..] == [Row(3, None, 5, 6)];
    assert IndexOf(rows, 3) == Some(2) && IndexOf(rows, 1) == Some(0);
  }

  /** `node3.parent = node1` under an existing child makes node 3 the first child. */
  lemma ThirdBecomesFirstChild()
    ensures Move(OneOverTwo(), 3, 1, Child) == Success(OneOverThreeTwo())
  {
    ThirdBecomesFirstChildPlan();
    UpdateThree(Update(Plan(5, 6, 2, 3), 3, Some(1)), Row(1, None, 1, 4), Row(2, Some(1), 2, 3), Row(3, None, 5, 6));
  }

  lemma SameParentAgainPlan()
    ensures PlanMove(OneOverTwo(), 2, 1, Child) == Success(Update(Plan(2, 3, 2, 3), 2, Some(1)))
  {
    assert IndexOf(OneOverTwo(), 2) == Some(1) && IndexOf(OneOverTwo(), 1) == Some(0);
  }

  /** Repeating `node2.parent = node1` changes nothing. */
  lemma SameParentAgain()
    ensures Move(OneOverTwo(), 2, 1, Child) == Success(OneOverTwo())
  {
    SameParentAgainPlan();
    UpdateThree(Update(Plan(2, 3, 2, 3), 2, Some(1)), Row(1, None, 1, 4), Row(2, Some(1), 2, 3), Row(3, None, 5, 6));
  }

  lemma ThirdLeftOfFirstPlan()
    ensures PlanMove(ThreeRoots(), 3, 1, Left) == Success(Update(Plan(5, 6, 1, 2), 3, None))
  {
    var rows := ThreeRoots();
    assert rows[1..][1..] == [Row(3, None, 5, 6)];
    assert IndexOf(rows, 3) == Some(2) && IndexOf(rows, 1) == Some(0);
  }

  /** `node3.move_to_left_of(node1)` from three roots gives the order node 3, node 1, node 2. */
  lemma ThirdLeftOfFirst()
    ensures Move(ThreeRoots(), 3, 1, Left) ==
      Success([Row(1, None, 3, 4), Row(2, None, 5, 6), Row(3, None, 1, 2)])
  {
    ThirdLeftOfFirstPlan();
    UpdateThree(Update(Plan(5, 6, 1, 2), 3, None), Row(1, None, 1, 2), Row(2, None, 3, 4), Row(3, None, 5, 6));
  }

  lemma FirstRightOfThirdPlan()
    ensures PlanMove(ThreeRoots(), 1, 3, Right) == Success(Update(Plan(1, 2, 5, 6), 1, None))
  {
    var rows := ThreeRoots();
    assert rows[1..][1..] == [Row(3, None, 5, 6)];
    assert IndexOf(rows, 1) == Some(0) && IndexOf(rows, 3) == Some(2);
  }

  /** `node1.move_to_right_of(node3)` from three roots gives the order node 2, node 3, node 1. */
  lemma FirstRightOfThird()
    ensures Move(ThreeRoots(), 1, 3, Right) ==
      Success([Row(1, None, 5, 6), Row(2, None, 1, 2), Row(3, None, 3, 4)])
  {
    FirstRightOfThirdPlan();
    UpdateThree(Update(Plan(1, 2, 5, 6), 1, None), Row(1, None, 1, 2), Row(2, None, 3, 4), Row(3, None, 5, 6));
  }

  /** A node cannot become its own child, nor the child of its own child; a new node cannot
      move; an unknown position is refused. */
  lemma RefusedMoves()
    ensures Move(ThreeRoots(), 1, 1, Child) == Failure(ImpossibleMove)
    ensures Move(OneOverTwo(), 1, 2, Child) == Failure(ImpossibleMove)
    ensures Move(OneOverTwo(), 1, 1, Left) == Failure(ImpossibleMove)
    ensures Move(ThreeRoots(), 9, 1, Child) == Failure(NotPersisted)
    ensures Move(ThreeRoots(), 1, 9, Right) == Failure(TargetNotFound)
    ensures Move(ThreeRoots(), 1, 2, Unknown("up")) == Failure(InvalidPosition)
  {
    var three, two := ThreeRoots(), OneOverTwo();
    assert three[1..][1..] == [Row(3, None, 5, 6)] && three[1..][1..][1..] == [];
    assert IndexOf(three, 1) == Some(0) && IndexOf(three, 2) == Some(1) && IndexOf(three, 9) == None;
    assert IndexOf(two, 1) == Some(0) && IndexOf(two, 2) == Some(1);
  }

  lemma DescendantsOfParentRows()
    ensures Where(OneOverThreeTwo(), AllChildrenOf(1, 6)) == [Row(2, Some(1), 4, 5), Row(3, Some(1), 2, 3)]
  {
    var rows := OneOverThreeTwo();
    assert rows[1..] == [Row(2, Some(1), 4, 5), Row(3, Some(1), 2, 3)];
    assert rows[1..][1..] == [Row(3, Some(1), 2, 3)];
  }

  lemma DescendantsOfParentOrder()
    ensures SortByLeft([Row(2, Some(1), 4, 5), Row(3, Some(1), 2, 3)]) ==
      [Row(3, Some(1), 2, 3), Row(2, Some(1), 4, 5)]
  {
    var kids := [Row(2, Some(1), 4, 5), Row(3, Some(1), 2, 3)];
    assert kids[1..] == [Row(3, Some(1), 2, 3)];
    assert SortByLeft(kids[1..]) == [Row(3, Some(1), 2, 3)];
    assert Insert(Row(2, Some(1), 4, 5), [Row(3, Some(1), 2, 3)]) == [Row(3, Some(1), 2, 3), Row(2, Some(1), 4, 5)];
  }

  /** `all_children` of node 1 in `OneOverThreeTwo`: both children, ordered by `left`. */
  lemma DescendantsOfParent()
    ensures AllChildren(OneOverThreeTwo(), Row(1, None, 1, 6)) ==
      Some([Row(3, Some(1), 2, 3), Row(2, Some(1), 4, 5)])
  {
    var rows := OneOverThreeTwo();
    assert Persisted(rows, 1) by { assert rows[0].id == 1; }
    DescendantsOfParentRows();
    DescendantsOfParentOrder();
  }

  /** `children_count` and `level` in `OneOverThreeTwo`. */
  lemma CountAndLevel()
    ensures ChildrenCount(OneOverThreeTwo(), Row(1, None, 1, 6)) == Some(2)
    ensures Level(OneOverThreeTwo(), Row(2, Some(1), 4, 5)) == Some(1)
  {
    var rows := OneOverThreeTwo();
    assert Persisted(rows, 1) by { assert rows[0].id == 1; }
    assert Persisted(rows, 2) by { assert rows[1].id == 2; }
    assert rows[1..] == [Row(2, Some(1), 4, 5), Row(3, Some(1), 2, 3)];
    assert rows[1..][1..] == [Row(3, Some(1), 2, 3)];
    assert Where(rows, AncestorsOf(4, 5)) == [Row(1, None, 1, 6)];
  }

  /** The chain `[node1, [node2, [node3]]]`. */
  function Chain(): seq<Row> {
    [Row(1, None, 1, 6), Row(2, Some(1), 2, 5), Row(3, Some(2), 3, 4)]
  }

  /** On a chain `children_count` counts grandchildren too, and `level` is the depth. */
  lemma ChainCountsAndLevels()
    ensures ChildrenCount(Chain(), Row(1, None, 1, 6)) == Some(2)
    ensures ChildrenCount(Chain(), Row(2, Some(1), 2, 5)) == Some(1)
    ensures ChildrenCount(Chain(), Row(3, Some(2), 3, 4)) == Some(0)
    ensures Level(Chain(), Row(3, Some(2), 3, 4)) == Some(2)
  {
    var rows := Chain();
    assert Persisted(rows, 1) by { assert rows[0].id == 1; }
    assert Persisted(rows, 2) by { assert rows[1].id == 2; }
    assert Persisted(rows, 3) by { assert rows[2].id == 3; }
    assert rows[1..] == [Row(2, Some(1), 2, 5), Row(3, Some(2), 3, 4)];
    assert rows[1..][1..] == [Row(3, Some(2), 3, 4)];
    assert Where(rows, AncestorsOf(3, 4)) == [Row(1, None, 1, 6), Row(2, Some(1), 2, 5)];
  }
}
