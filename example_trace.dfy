/**
 * The scenario of `examples/example.js`: build a small tree, query it, then
 * reshape it with every kind of move and removal.  Each step's outcome is
 * worked out on the concrete table, and the run on a `PostgresTree` ends with
 * exactly rows 1 and 4 left.
 */
module ExampleTrace {
  import opened Sql
  import opened Forest
  import opened Traversal
  import opened ClosureView
  import opened Mutations
  import opened Preservation
  import opened PostgresTreeModule

  const N1: Node := Node(None, "Node1", 0)

  /** After adding 1, then 2 and 3 under 1. */
  const T3: Table := map[1 := N1, 2 := Node(Some(1), "Node2", 0), 3 := Node(Some(1), "Node3", 0)]
  /** After replacingInsertNode 4 under 1: 2 and 3 now hang under 4. */
  const T4: Table := map[1 := N1, 2 := Node(Some(4), "Node2", 0), 3 := Node(Some(4), "Node3", 0),
                         4 := Node(Some(1), "Node4", 0)]
  /** After replacingInsertNode 5 under 4: the chain 1 -> 4 -> 5 -> {2, 3}. */
  const T5: Table := map[1 := N1, 2 := Node(Some(5), "Node2", 0), 3 := Node(Some(5), "Node3", 0),
                         4 := Node(Some(1), "Node4", 0), 5 := Node(Some(4), "Node5", 0)]
  /** After moveSubtree(3, 2). */
  const T6: Table := T5[3 := Node(Some(2), "Node3", 0)]
  /** After moveDescendants(2, 4): 3 moves on to 4. */
  const T7: Table := T5[3 := Node(Some(4), "Node3", 0)]
  /** After removeNode(3), which had no children. */
  const T8: Table := map[1 := N1, 2 := Node(Some(5), "Node2", 0), 4 := Node(Some(1), "Node4", 0),
                         5 := Node(Some(4), "Node5", 0)]
  /** After removeSubtree(5): 5 and its child 2 are gone. */
  const T9: Table := map[1 := N1, 4 := Node(Some(1), "Node4", 0)]

  /** After adding 1 and then 2 under it. */
  const T2: Table := map[1 := N1, 2 := Node(Some(1), "Node2", 0)]

  /** The three addNode calls commit: 1 as a root, then 2 and 3 under it. */
  lemma AddSteps()
    ensures AddNodeStmt(map[], 1, None, "Node1", 0).After(map[]) == map[1 := N1]
    ensures AddNodeStmt(map[1 := N1], 2, Some(1), "Node2", 0).After(map[1 := N1]) == T2
    ensures AddNodeStmt(T2, 3, Some(1), "Node3", 0).After(T2) == T3
  {
  }

  /** replacingInsertNode 4 under 1 takes over 2 and 3. */
  lemma ReplacingStep4()
    ensures ReplacingInsertNodeStmt(T3, 4, Some(1), "Node4", 0).After(T3) == T4
  {
  }

  /** replacingInsertNode 5 under 4 takes over 2 and 3 again. */
  lemma ReplacingStep5()
    ensures ReplacingInsertNodeStmt(T4, 5, Some(4), "Node5", 0).After(T4) == T5
  {
  }

  /** Every row of T5 reaches the root 1. */
  lemma T5IsForest()
    ensures IsForest(T5)
  {
    var rank := (m: int) => if m == 1 then 0 else if m == 4 then 1 else if m == 5 then 2 else 3;
    RankedIsForest(T5, rank);
  }

  /** getLeaves and getRoots as the example prints them. */
  lemma LeavesAndRootsOfT5()
    ensures GetLeaves(T5) == {NodeRow(2, Some(5), "Node2", 0), NodeRow(3, Some(5), "Node3", 0)}
    ensures GetRoots(T5) == {RootRow(1, "Node1", 0)}
  {
    assert forall c :: c in T5 ==> T5[c].parent != Some(2) && T5[c].parent != Some(3);
    assert T5[2].parent == Some(5) && T5[4].parent == Some(1) && T5[5].parent == Some(4);
  }

  /** The link count from each row of T5 up to the root 1, with the depth getDescendants(1) gives it. */
  lemma T5Distances(n: int)
    requires n in T5
    ensures var d := if n == 1 then 0 else if n == 4 then 1 else if n == 5 then 2 else 3;
      Up(T5, n, d) == Some(1) && DepthBelow(T5, n, d, 0) == d
  {
    assert Up(T5, 1, 0) == Some(1);
    assert Up(T5, 4, 1) == Some(1);
    assert Up(T5, 5, 2) == Some(1);
    assert Up(T5, 2, 3) == Some(1) && Up(T5, 3, 3) == Some(1);
  }

  /** getDescendants(1) on T5 as the example prints it. */
  const T5Descendants: set<DescendantRow> :=
    {DescendantRow(4, Some(1), "Node4", 0, 1), DescendantRow(5, Some(4), "Node5", 0, 2),
     DescendantRow(2, Some(5), "Node2", 0, 3), DescendantRow(3, Some(5), "Node3", 0, 3)}

  /** A row some links below 1 is one of the expected rows. */
  lemma LevelRowOfT5(k: nat, r: DescendantRow)
    requires !IsProperAncestor(T5, 1, 1) && 1 <= k && r in Level(T5, 1, 0, k)
    ensures r in T5Descendants
  {
    T5Distances(r.id);
    var d := if r.id == 1 then 0 else if r.id == 4 then 1 else if r.id == 5 then 2 else 3;
    DistanceUnique(T5, 1, r.id, k, d);
  }

  /** Each expected row lies on the level of its link count. */
  lemma ExpectedRowOfT5(r: DescendantRow)
    requires r in T5Descendants
    ensures exists k: nat :: 1 <= k && r in Level(T5, 1, 0, k)
  {
    T5Distances(r.id);
    assert r.depth == (if r.id == 4 then 1 else if r.id == 5 then 2 else 3);
    assert r in Level(T5, 1, 0, r.depth);
  }

  /**
   * getDescendants(1) reaches every other row: 4 one link down at depth 1,
   * 5 at depth 2, and 2 and 3 at depth 3 (every ofset is 0 and lib/ seeds
   * the depth with row 1's ofset).
   */
  lemma DescendantsOfT5()
    ensures IsForest(T5)
    ensures GetDescendants(T5, 1, Lib) == T5Descendants
  {
    T5IsForest();
    RootedNotOwnAncestor(T5, 1);
    DescendantsAreLevels(T5, 1, Lib);
    assert SeedDepth(T5, 1, Lib) == 0;
    LevelsOfT5(GetDescendants(T5, 1, Lib));
  }

  /** The rows on levels 1, 2, ... below 1 are the expected ones. */
  lemma LevelsOfT5(rows: set<DescendantRow>)
    requires !IsProperAncestor(T5, 1, 1)
    requires forall r :: r in rows <==> exists k: nat :: 1 <= k && r in Level(T5, 1, 0, k)
    ensures rows == T5Descendants
  {
    forall r | r in T5Descendants ensures r in rows {
      ExpectedRowOfT5(r);
    }
    forall r | r in rows ensures r in T5Descendants {
      var k: nat :| 1 <= k && r in Level(T5, 1, 0, k);
      LevelRowOfT5(k, r);
    }
  }


  /** getAncestors(3): 5, 4 and the root 1, each one step further up. */
  lemma AncestorsOfT5()
    ensures IsForest(T5)
    ensures GetAncestors(T5, 3) ==
      [AncestorRow(5, Some(4), "Node5", -1), AncestorRow(4, Some(1), "Node4", -2), AncestorRow(1, None, "Node1", -3)]
  {
    T5IsForest();
    ClimbFromRow3();
    assert T5.Keys == {1, 2, 3, 4, 5};
    assert |T5| == 5;
  }

  /** The ancestors CTE run from row 3 of T5 for |T5| rounds. */
  lemma ClimbFromRow3()
    ensures ClimbFrom(T5, AncestorRow(3, Some(5), "Node3", 0), 5) ==
      [AncestorRow(5, Some(4), "Node5", -1), AncestorRow(4, Some(1), "Node4", -2), AncestorRow(1, None, "Node1", -3)]
  {
    var r1 := AncestorRow(1, None, "Node1", -3);
    var r4 := AncestorRow(4, Some(1), "Node4", -2);
    var r5 := AncestorRow(5, Some(4), "Node5", -1);
    assert ClimbFrom(T5, r1, 2) == [];
    assert ClimbFrom(T5, r4, 3) == [r1];
    assert ClimbFrom(T5, r5, 4) == [r4, r1];
  }



  /** moveSubtree(3, 2), then moveDescendants(2, 4). */
  lemma MoveSteps()
    ensures MoveSubtreeStmt(T5, 3, Some(2)).After(T5) == T6
    ensures MoveDescendantsStmt(T6, Some(2), Some(4)).After(T6) == T7
  {
  }

  /** removeNode(3): row 3 has no children, so only it goes. */
  lemma RemoveNodeStep()
    ensures RemoveNodeStmt(T7, 3).After(T7) == T8
  {
  }

  /** In T8 the subtree of 5 is {5, 2}. */
  lemma T8IsForest()
    ensures IsForest(T8)
  {
    var rank := (m: int) => if m == 1 then 0 else if m == 4 then 1 else if m == 5 then 2 else 3;
    RankedIsForest(T8, rank);
  }

  lemma T8Subtree()
    ensures IsForest(T8)
    ensures InSubtree(T8, 5, 5) && InSubtree(T8, 5, 2) && !InSubtree(T8, 5, 1) && !InSubtree(T8, 5, 4)
  {
    T8IsForest();
    assert Up(T8, 5, 0) == Some(5);
    assert Up(T8, 2, 1) == Some(5);
    assert ReachesRoot(T8, 1, 0);
    NotInSubtreeWithin(T8, 5, 1, 0);
    assert Up(T8, 4, 0) == Some(4) && Up(T8, 4, 1) == Some(1);
    NotInSubtreeWithin(T8, 5, 4, 1);
  }

  /** A committed removeSubtree leaves exactly the rows outside the subtree, unchanged. */
  lemma RemoveSubtreeLeaves(t: Table, v: Variant, id: int, rest: Table)
    requires Valid(t) && IsForest(t) && id in t
    requires forall n :: n in rest <==> n in t && !InSubtree(t, id, n)
    requires forall n :: n in rest ==> rest[n] == t[n]
    ensures RemoveSubtreeStmt(t, v, id).After(t) == rest
  {
    RemoveSubtreeInForest(t, v, id);
    var o := RemoveSubtreeStmt(t, v, id);
    assert o.Committed?;
    forall n
      ensures n in o.table <==> n in rest
    {
      assert n in o.table <==> n in t && !InSubtree(t, id, n);
    }
    assert forall n :: n in rest ==> o.table[n] == t[n] == rest[n];
    assert o.table == rest;
  }

  /** removeSubtree(5) deletes 5 and 2. */
  lemma RemoveSubtreeStep(v: Variant)
    ensures RemoveSubtreeStmt(T8, v, 5).After(T8) == T9
  {
    T8Subtree();
    RemoveSubtreeLeaves(T8, v, 5, T9);
  }

  /** The first half of example.js: three addNode and two replacingInsertNode calls on a fresh tree. */
  method BuildExample(v: Variant) returns (tree: PostgresTree)
    ensures fresh(tree) && tree.Valid() && tree.variant == v && tree.table == T5
  {
    tree := new PostgresTree(v);
    AddSteps();
    var _ := tree.AddNode(1, None, "Node1", 0);
    var _ := tree.AddNode(2, Some(1), "Node2", 0);
    var _ := tree.AddNode(3, Some(1), "Node3", 0);
    ReplacingStep4();
    var _ := tree.ReplacingInsertNode(4, Some(1), "Node4", 0);
    ReplacingStep5();
    var _ := tree.ReplacingInsertNode(5, Some(4), "Node5", 0);
  }

  /** The second half: moveSubtree, moveDescendants, removeNode and removeSubtree. */
  method ReshapeExample(tree: PostgresTree)
    requires tree.Valid() && tree.table == T5
    modifies tree
    ensures tree.table == T9 && tree.viewDefined
  {
    MoveSteps();
    var _ := tree.MoveSubtree(3, Some(2));
    var _ := tree.MoveDescendants(Some(2), Some(4));
    RemoveNodeStep();
    var _ := tree.RemoveNode(3);
    RemoveSubtreeStep(tree.variant);
    var _ := tree.RemoveSubtree(5);
  }

  /**
   * The run of example.js on a fresh tree, with the leaves, roots, descendants,
   * ancestors and views it prints along the way.
   */
  method RunExample(v: Variant) returns (tree: PostgresTree, leaves: set<NodeRow>, roots: set<RootRow>,
                                         descendants: set<DescendantRow>, ancestors: seq<AncestorRow>,
                                         firstView: Result<set<ViewRow>>, finalView: Result<set<ViewRow>>)
    ensures leaves == {NodeRow(2, Some(5), "Node2", 0), NodeRow(3, Some(5), "Node3", 0)}
    ensures roots == {RootRow(1, "Node1", 0)}
    ensures v == Lib ==> descendants == T5Descendants
    ensures ancestors ==
      [AncestorRow(5, Some(4), "Node5", -1), AncestorRow(4, Some(1), "Node4", -2), AncestorRow(1, None, "Node1", -3)]
    ensures firstView == Success(ViewRows(T5, v))
    ensures tree.table == map[1 := Node(None, "Node1", 0), 4 := Node(Some(1), "Node4", 0)]
    ensures finalView == Success(ViewRows(tree.table, v))
  {
    tree := BuildExample(v);
    LeavesAndRootsOfT5();
    leaves := tree.GetLeaves();
    roots := tree.GetRoots();
    T5IsForest();
    RootedNotOwnAncestor(T5, 1);
    DescendantsOfT5();
    descendants := tree.GetDescendants(1);
    AncestorsOfT5();
    ancestors := tree.GetAncestors(3);
    var _ := tree.CreateView();
    firstView := tree.View();
    ReshapeExample(tree);
    finalView := tree.View();
  }
}
