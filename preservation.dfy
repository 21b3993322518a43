/**
 * What each mutation does to the shape of the table: which ones keep a
 * forest a forest, which inputs close a cycle, and what they leave alone.
 */
module Preservation {
  import opened Sql
  import opened Forest
  import opened Traversal
  import opened ClosureView
  import opened Mutations

  /** A ranking by distance to the root. */
  ghost function DistanceRank(t: Table, m: int): nat
    requires IsForest(t)
  {
    if m in t then RootDistance(t, m) else 0
  }

  // ---------------------------------------------------------------------------
  // addNode

  /** A ranking of the table after a row `id` is inserted under `x`: twice the old distances, `id` in between. */
  ghost function InsertAboveRank(t: Table, id: int, x: Option<int>, m: int): nat
    requires IsForest(t)
  {
    if m in t then 2 * RootDistance(t, m) + 2
    else if x.Some? && x.value in t then 2 * RootDistance(t, x.value) + 3
    else 0
  }

  /** Each parent link left by inserting `id` under `x` goes down in the ranking. */
  lemma InsertAboveRankStep(t: Table, id: int, x: Option<int>, m: int, p: int)
    requires IsForest(t) && Valid(t) && id !in t && (x.Some? ==> x.value in t)
    requires m == id ==> x == Some(p)
    requires m != id ==> m in t && (t[m].parent == Some(p) || (p == id && t[m].parent == x))
    ensures InsertAboveRank(t, id, x, p) < InsertAboveRank(t, id, x, m)
  {
    if m != id && t[m].parent.Some? {
      RootDistanceStep(t, m);
    }
  }

  /**
   * The shape addNode, insertNode and replacingInsertNode leave: a new row
   * `id` under `x`, and some rows that were children of `x` re-pointed at
   * `id`.  Such a table is a forest when the old one was.
   */
  lemma InsertAboveKeepsForest(t: Table, t': Table, id: int, x: Option<int>)
    requires Valid(t) && IsForest(t) && Valid(t') && id !in t && t'.Keys == t.Keys + {id}
    requires t'[id].parent == x && x != Some(id)
    requires forall m :: m in t ==> t'[m].parent == t[m].parent || (t'[m].parent == Some(id) && t[m].parent == x)
    ensures IsForest(t')
  {
    var rank := (m: int) => InsertAboveRank(t, id, x, m);
    forall m | m in t' && t'[m].parent.Some?
      ensures rank(t'[m].parent.value) < rank(m)
    {
      InsertAboveRankStep(t, id, x, m, t'[m].parent.value);
    }
    RankedIsForest(t', rank);
  }

  /** A new row keeps the table a forest exactly when it is not its own parent. */
  lemma AddNodeForestIff(t: Table, id: int, parent: Option<int>, name: string, ofset: int)
    requires Valid(t) && IsForest(t)
    ensures var o := AddNodeStmt(t, id, parent, name, ofset);
      o.Committed? ==> (IsForest(o.table) <==> parent != Some(id))
  {
    var o := AddNodeStmt(t, id, parent, name, ofset);
    if o.Committed? {
      if parent == Some(id) {
        assert Up(o.table, id, 1) == Some(id);
        CycleNotRooted(o.table, id, 1);
      } else {
        InsertAboveKeepsForest(t, o.table, id, parent);
      }
    }
  }

  // ---------------------------------------------------------------------------
  // moveSubtree

  /** A ranking of the table after `a` is moved under `np`: the moved subtree is shifted as a block. */
  ghost function MovedSubtreeRank(t: Table, a: int, np: Option<int>, m: int): nat
    requires IsForest(t) && a in t && (np.Some? ==> np.value in t)
  {
    if m !in t then 0
    else if InSubtree(t, a, m) then
      var k: nat :| Up(t, m, k) == Some(a);
      SubtreeDistance(t, a, m, k);
      RootDistance(t, m) - RootDistance(t, a) + (if np.Some? then RootDistance(t, np.value) + 1 else 0)
    else RootDistance(t, m)
  }

  /** Each parent link of the moved table goes down in the shifted ranking. */
  lemma MovedSubtreeRankStep(t: Table, a: int, np: Option<int>, m: int, p: int)
    requires Valid(t) && IsForest(t) && a in t && (np.Some? ==> np.value in t) && m in t
    requires m == a ==> np == Some(p) && !InSubtree(t, a, p)
    requires m != a ==> t[m].parent == Some(p)
    ensures MovedSubtreeRank(t, a, np, p) < MovedSubtreeRank(t, a, np, m)
  {
    assert Up(t, a, 0) == Some(a);
    if m == a {
    } else if InSubtree(t, a, m) {
      ParentInSubtree(t, a, m);
      RootDistanceStep(t, m);
    } else {
      if InSubtree(t, a, p) {
        ChildInSubtree(t, a, m);
      }
      RootDistanceStep(t, m);
    }
  }

  /** Moving a row under one of its own descendants (or itself) closes a cycle through it. */
  lemma MoveSubtreeUnderDescendantMakesCycle(t: Table, nodeId: int, d: int)
    requires Valid(t) && Rooted(t, nodeId) && d in t && InSubtree(t, nodeId, d)
    ensures var o := MoveSubtreeStmt(t, nodeId, Some(d));
      o.Committed? && !Rooted(o.table, nodeId)
  {
    var t' := MoveSubtreeStmt(t, nodeId, Some(d)).table;
    var k: nat :| Up(t, d, k) == Some(nodeId);
    PathIntoUnchanged(t, t', nodeId, d, k);
    UpAdd(t', nodeId, 1, k);
    CycleNotRooted(t', nodeId, 1 + k);
  }

  /** In a forest, moveSubtree keeps a forest exactly when the new parent is outside the moved subtree. */
  lemma MoveSubtreeForestIff(t: Table, nodeId: int, np: Option<int>)
    requires Valid(t) && IsForest(t) && nodeId in t
    ensures var o := MoveSubtreeStmt(t, nodeId, np);
      IsForest(o.After(t)) <==> o.Aborted? || np.None? || !InSubtree(t, nodeId, np.value)
  {
    var o := MoveSubtreeStmt(t, nodeId, np);
    if o.Committed? {
      var t' := o.table;
      if np.Some? && InSubtree(t, nodeId, np.value) {
        MoveSubtreeUnderDescendantMakesCycle(t, nodeId, np.value);
      } else {
        var rank := (m: int) => MovedSubtreeRank(t, nodeId, np, m);
        forall m | m in t' && t'[m].parent.Some?
          ensures rank(t'[m].parent.value) < rank(m)
        {
          MovedSubtreeRankStep(t, nodeId, np, m, t'[m].parent.value);
        }
        RankedIsForest(t', rank);
      }
    }
  }

  /** The moved subtree travels whole: every path up to the moved row is kept and continues to the new parent. */
  lemma MoveSubtreeCarriesSubtree(t: Table, nodeId: int, np: Option<int>, m: int, k: nat)
    requires Valid(t) && Rooted(t, nodeId) && Up(t, m, k) == Some(nodeId)
    ensures var o := MoveSubtreeStmt(t, nodeId, np);
      o.Committed? ==> Up(o.table, m, k) == Some(nodeId) && Up(o.table, m, k + 1) == np
  {
    var o := MoveSubtreeStmt(t, nodeId, np);
    if o.Committed? {
      PathIntoUnchanged(t, o.table, nodeId, m, k);
      UpAdd(o.table, m, k, 1);
    }
  }

  /** Rows outside the moved subtree keep their whole ancestor chain. */
  lemma MoveSubtreeKeepsOtherChains(t: Table, nodeId: int, np: Option<int>, m: int, k: nat)
    requires Valid(t) && !InSubtree(t, nodeId, m)
    ensures var o := MoveSubtreeStmt(t, nodeId, np);
      o.Committed? ==> Up(o.table, m, k) == Up(t, m, k)
  {
    var o := MoveSubtreeStmt(t, nodeId, np);
    if o.Committed? {
      forall i | 0 <= i < k && Up(t, m, i).Some?
        ensures Parent(o.table, Up(t, m, i).value) == Parent(t, Up(t, m, i).value)
      {
      }
      UpFrame(t, o.table, m, k);
    }
  }

  /** MoveSubtreeForestIff as PostgresTree.MoveSubtree states it, for any table and row. */
  lemma MoveSubtreeForestCase(t: Table, nodeId: int, np: Option<int>)
    requires Valid(t)
    ensures var o := MoveSubtreeStmt(t, nodeId, np);
      IsForest(t) && nodeId in t ==> (IsForest(o.After(t)) <==> o.Aborted? || np.None? || !InSubtree(t, nodeId, np.value))
  {
    if IsForest(t) && nodeId in t {
      MoveSubtreeForestIff(t, nodeId, np);
    }
  }

  // ---------------------------------------------------------------------------
  // moveDescendants

  /** A ranking of the table after the children of `a` move under `np`. */
  ghost function MovedChildrenRank(t: Table, a: int, np: Option<int>, m: int): nat
    requires IsForest(t) && a in t && (np.Some? ==> np.value in t)
  {
    if m !in t then 0
    else if m != a && InSubtree(t, a, m) then
      var k: nat :| Up(t, m, k) == Some(a);
      SubtreeDistance(t, a, m, k);
      RootDistance(t, m) - RootDistance(t, a) - 1 + (if np.Some? then RootDistance(t, np.value) + 1 else 0)
    else RootDistance(t, m)
  }

  /** Each parent link of the table after moveDescendants goes down in its ranking. */
  lemma MovedChildrenRankStep(t: Table, a: int, np: Option<int>, m: int, p: int)
    requires Valid(t) && IsForest(t) && a in t && (np.Some? ==> np.value in t) && m in t
    requires np.None? || np.value == a || !InSubtree(t, a, np.value)
    requires t[m].parent == Some(a) ==> np == Some(p)
    requires t[m].parent != Some(a) ==> t[m].parent == Some(p)
    ensures MovedChildrenRank(t, a, np, p) < MovedChildrenRank(t, a, np, m)
  {
    assert Up(t, a, 0) == Some(a);
    if t[m].parent == Some(a) {
      ChildInSubtree(t, a, m);
      RootDistanceStep(t, m);
    } else if m != a && InSubtree(t, a, m) {
      ParentInSubtree(t, a, m);
      RootDistanceStep(t, m);
    } else if m == a {
      ParentOutsideSubtree(t, a);
      RootDistanceStep(t, m);
    } else {
      if p != a && InSubtree(t, a, p) {
        ChildInSubtree(t, a, m);
      }
      RootDistanceStep(t, m);
    }
  }

  /** In a forest the parent of a row lies outside the row's subtree. */
  lemma ParentOutsideSubtree(t: Table, a: int)
    requires Rooted(t, a) && a in t && t[a].parent.Some?
    ensures !InSubtree(t, a, t[a].parent.value)
  {
    if InSubtree(t, a, t[a].parent.value) {
      var k: nat :| Up(t, t[a].parent.value, k) == Some(a);
      assert Up(t, a, k + 1) == Some(a);
      NoSelfAncestor(t, a, RootDistance(t, a), k + 1);
    }
  }

  /** The shape moveDescendants leaves: the children of `a` point at `np`, nothing else changes. */
  lemma MovedChildrenKeepForest(t: Table, t': Table, a: int, np: Option<int>)
    requires Valid(t) && IsForest(t) && a in t && Valid(t') && t'.Keys == t.Keys
    requires forall m :: m in t && t[m].parent == Some(a) ==> t'[m].parent == np
    requires forall m :: m in t && t[m].parent != Some(a) ==> t'[m].parent == t[m].parent
    requires np.None? || np.value in t
    requires np.None? || np.value == a || !InSubtree(t, a, np.value)
    ensures IsForest(t')
  {
    var rank := (m: int) => MovedChildrenRank(t, a, np, m);
    forall m | m in t' && t'[m].parent.Some?
      ensures rank(t'[m].parent.value) < rank(m)
    {
      MovedChildrenRankStep(t, a, np, m, t'[m].parent.value);
    }
    RankedIsForest(t', rank);
  }

  /** In a forest, moveDescendants keeps a forest when the new parent is not below the old one. */
  lemma MoveDescendantsKeepsForest(t: Table, a: int, np: Option<int>)
    requires Valid(t) && IsForest(t) && a in t
    requires np.None? || np.value == a || !InSubtree(t, a, np.value)
    ensures IsForest(MoveDescendantsStmt(t, Some(a), np).After(t))
  {
    var o := MoveDescendantsStmt(t, Some(a), np);
    if o.Committed? {
      if np.Some? && np.value !in t {
        RestrictionKeepsForest(t, o.table);
      } else {
        MovedChildrenKeepForest(t, o.table, a, np);
      }
    }
  }

  /**
   * When the children of `a` are repointed at a row `d` of `a`'s own subtree
   * and nothing else changes, a cycle closes through `d`: the path from `d`
   * up to the child of `a` it runs through is untouched, and that child now
   * points at `d`.
   */
  lemma ChildrenUnderDescendantMakeCycle(t: Table, t': Table, a: int, d: int)
    requires a in t && Rooted(t, a) && d != a && InSubtree(t, a, d)
    requires forall m :: m in t && t[m].parent != Some(a) ==> Parent(t', m) == t[m].parent
    requires forall m :: m in t && t[m].parent == Some(a) ==> Parent(t', m) == Some(d)
    ensures !Rooted(t', d)
  {
    var k: nat :| Up(t, d, k) == Some(a);
    UpPrefixDefined(t, d, k - 1, k);
    UpAdd(t, d, k - 1, 1);
    forall i | 0 <= i < k - 1 && Up(t, d, i).Some?
      ensures Parent(t', Up(t, d, i).value) == Parent(t, Up(t, d, i).value)
    {
      UpPrefixDefined(t, d, i, k);
      if t[Up(t, d, i).value].parent == Some(a) {
        UpAdd(t, d, i, 1);
        UpAdd(t, d, i + 1, k - i - 1);
        NoSelfAncestor(t, a, RootDistance(t, a), k - i - 1);
      }
    }
    UpFrame(t, t', d, k - 1);
    UpAdd(t', d, k - 1, 1);
    CycleNotRooted(t', d, k);
  }

  /** Moving the children of `a` under a row `d` of `a`'s own subtree commits and closes a cycle through `d`. */
  lemma MoveDescendantsUnderDescendantMakesCycle(t: Table, a: int, d: int)
    requires Valid(t) && a in t && Rooted(t, a) && d in t && d != a && InSubtree(t, a, d)
    ensures var o := MoveDescendantsStmt(t, Some(a), Some(d));
      o.Committed? && !Rooted(o.table, d)
  {
    var t' := MoveDescendantsStmt(t, Some(a), Some(d)).table;
    ChildrenUnderDescendantMakeCycle(t, t', a, d);
  }

  /**
   * In a forest, moveDescendants leaves a forest exactly when `nodeId` is
   * null, the new parent is null, `nodeId` itself or outside `nodeId`'s
   * subtree, or `nodeId` has no children to move.
   */
  lemma MoveDescendantsForestIff(t: Table, nodeId: Option<int>, np: Option<int>)
    requires Valid(t) && IsForest(t)
    ensures IsForest(MoveDescendantsStmt(t, nodeId, np).After(t)) <==>
      || nodeId.None? || np.None? || np == nodeId || !InSubtree(t, nodeId.value, np.value)
      || forall n :: n in t ==> t[n].parent != nodeId
  {
    var o := MoveDescendantsStmt(t, nodeId, np);
    if o.Committed? {
      if nodeId.None? || forall n :: n in t ==> t[n].parent != nodeId {
        assert o.table == t;
      } else if np.None? || np == nodeId || !InSubtree(t, nodeId.value, np.value) {
        MoveDescendantsKeepsForest(t, nodeId.value, np);
      } else {
        MoveChildrenBelowOwnSubtree(t, nodeId.value, np.value);
      }
    }
  }

  /** In a forest, moving the children of `a` under a proper descendant of `a` breaks the forest. */
  lemma MoveChildrenBelowOwnSubtree(t: Table, a: int, d: int)
    requires Valid(t) && IsForest(t) && d != a && InSubtree(t, a, d)
    requires exists c :: c in t && t[c].parent == Some(a)
    ensures !IsForest(MoveDescendantsStmt(t, Some(a), Some(d)).After(t))
  {
    var c :| c in t && t[c].parent == Some(a);
    assert Up(t, d, 1).Some?;
    MoveDescendantsUnderDescendantMakesCycle(t, a, d);
  }

  /** MoveDescendantsForestIff as PostgresTree.MoveDescendants states it, for any table. */
  lemma MoveDescendantsForestCase(t: Table, nodeId: Option<int>, np: Option<int>)
    requires Valid(t)
    ensures IsForest(t) ==>
      (IsForest(MoveDescendantsStmt(t, nodeId, np).After(t)) <==>
        || nodeId.None? || np.None? || np == nodeId || !InSubtree(t, nodeId.value, np.value)
        || forall n :: n in t ==> t[n].parent != nodeId)
  {
    if IsForest(t) {
      MoveDescendantsForestIff(t, nodeId, np);
    }
  }

  // ---------------------------------------------------------------------------
  // removeNode

  /** A row's parent, or its grandparent when the parent is `id`, is closer to the root. */
  lemma PromotedRankStep(t: Table, id: int, m: int, p: int)
    requires Valid(t) && IsForest(t) && id in t && m in t
    requires t[m].parent == Some(id) ==> t[id].parent == Some(p)
    requires t[m].parent != Some(id) ==> t[m].parent == Some(p)
    ensures DistanceRank(t, p) < DistanceRank(t, m)
  {
    RootDistanceStep(t, m);
    if t[m].parent == Some(id) {
      RootDistanceStep(t, id);
    }
  }

  /** In a forest removeNode always commits and leaves a forest. */
  lemma RemoveNodeKeepsForest(t: Table, id: int)
    requires Valid(t) && IsForest(t) && id in t
    ensures var o := RemoveNodeStmt(t, id);
      o.Committed? && IsForest(o.table)
  {
    NoSelfAncestor(t, id, RootDistance(t, id), 1);
    var t' := RemoveNodeStmt(t, id).table;
    var rank := (m: int) => DistanceRank(t, m);
    forall m | m in t' && t'[m].parent.Some?
      ensures rank(t'[m].parent.value) < rank(m)
    {
      PromotedRankStep(t, id, m, t'[m].parent.value);
    }
    RankedIsForest(t', rank);
  }

  /** Every path up from a surviving row keeps reaching its surviving ancestors after removeNode. */
  lemma {:induction false} RemoveNodeKeepsPaths(t: Table, id: int, n: int, a: int, k: nat)
    requires Valid(t) && id in t && n in t && n != id && a != id && Up(t, n, k) == Some(a)
    requires RemoveNodeStmt(t, id).Committed?
    ensures InSubtree(RemoveNodeStmt(t, id).table, a, n)
    decreases k
  {
    var t' := RemoveNodeStmt(t, id).table;
    if k == 0 {
      assert Up(t', n, 0) == Some(a);
    } else {
      var p := t[n].parent.value;
      if p != id {
        assert Up(t, p, k - 1) == Some(a);
        RemoveNodeKeepsPaths(t, id, p, a, k - 1);
        var j: nat :| Up(t', p, j) == Some(a);
        assert Up(t', n, j + 1) == Some(a);
      } else {
        assert k >= 2 && Up(t, id, k - 1) == Some(a);
        var g := t[id].parent.value;
        assert Up(t, g, k - 2) == Some(a);
        RemoveNodeKeepsPaths(t, id, g, a, k - 2);
        var j: nat :| Up(t', g, j) == Some(a);
        assert Up(t', n, j + 1) == Some(a);
      }
    }
  }

  /** A path up from a row after removeNode was a path in the table before it. */
  lemma {:induction false} RemoveNodeAddsNoPaths(t: Table, id: int, n: int, a: int, k: nat)
    requires Valid(t) && id in t && RemoveNodeStmt(t, id).Committed?
    requires n in RemoveNodeStmt(t, id).table && Up(RemoveNodeStmt(t, id).table, n, k) == Some(a)
    ensures InSubtree(t, a, n)
    decreases k
  {
    var t' := RemoveNodeStmt(t, id).table;
    if k == 0 {
      assert Up(t, n, 0) == Some(a);
    } else {
      var p := t'[n].parent.value;
      assert Up(t', p, k - 1) == Some(a);
      RemoveNodeAddsNoPaths(t, id, p, a, k - 1);
      var j: nat :| Up(t, p, j) == Some(a);
      if t[n].parent == Some(id) {
        assert Up(t, n, j + 2) == Some(a);
      } else {
        assert Up(t, n, j + 1) == Some(a);
      }
    }
  }

  /** removeNode keeps every ancestor relation among the rows that survive it. */
  lemma RemoveNodeKeepsAncestry(t: Table, id: int, n: int, a: int)
    requires Valid(t) && id in t && RemoveNodeStmt(t, id).Committed?
    requires n in t && n != id && a != id
    ensures InSubtree(RemoveNodeStmt(t, id).table, a, n) <==> InSubtree(t, a, n)
  {
    if InSubtree(t, a, n) {
      var k: nat :| Up(t, n, k) == Some(a);
      RemoveNodeKeepsPaths(t, id, n, a, k);
    }
    if InSubtree(RemoveNodeStmt(t, id).table, a, n) {
      var k: nat :| Up(RemoveNodeStmt(t, id).table, n, k) == Some(a);
      RemoveNodeAddsNoPaths(t, id, n, a, k);
    }
  }

  // ---------------------------------------------------------------------------
  // removeSubtree

  /** In a forest the closure view's subtree of `id` is `id`'s subtree. */
  lemma SubtreeIdsAreSubtree(t: Table, v: Variant, id: int, n: int)
    requires Valid(t) && IsForest(t) && id in t
    ensures n in SubtreeIds(t, v, id) <==> n in t && InSubtree(t, id, n)
  {
    SubtreeIdsAreDescendants(t, v, id);
    if n in t && InSubtree(t, id, n) && n != id {
      var k: nat :| Up(t, n, k) == Some(id);
      assert IsProperAncestor(t, id, n);
    }
    if n == id {
      assert Up(t, n, 0) == Some(id);
    }
    if n in t && IsProperAncestor(t, id, n) {
      var k :| 1 <= k && Up(t, n, k) == Some(id);
      assert InSubtree(t, id, n);
    }
  }

  /** Deleting rows so that no survivor loses its parent keeps a forest a forest. */
  lemma RestrictionKeepsForest(t: Table, t': Table)
    requires IsForest(t) && Valid(t')
    requires forall n :: n in t' ==> n in t && t'[n] == t[n]
    ensures IsForest(t')
  {
    var rank := (m: int) => DistanceRank(t, m);
    forall m | m in t' && t'[m].parent.Some?
      ensures rank(t'[m].parent.value) < rank(m)
    {
      RootDistanceStep(t, m);
    }
    RankedIsForest(t', rank);
  }

  /** In a forest no row outside the subtree of `id` has its parent inside it, so removeSubtree commits. */
  lemma RemoveSubtreeCommits(t: Table, v: Variant, id: int)
    requires Valid(t) && IsForest(t) && id in t
    ensures RemoveSubtreeStmt(t, v, id).Committed?
  {
    var doomed := SubtreeIds(t, v, id);
    forall n | n in t && n !in doomed && t[n].parent.Some?
      ensures t[n].parent.value !in doomed
    {
      SubtreeIdsAreSubtree(t, v, id, n);
      SubtreeIdsAreSubtree(t, v, id, t[n].parent.value);
      if t[n].parent.value in doomed {
        ChildInSubtree(t, id, n);
      }
    }
  }

  /** In a forest removeSubtree commits, deletes exactly the subtree of `id`, and leaves a forest. */
  lemma RemoveSubtreeInForest(t: Table, v: Variant, id: int)
    requires Valid(t) && IsForest(t) && id in t
    ensures var o := RemoveSubtreeStmt(t, v, id);
      && o.Committed?
      && (forall n :: n in o.table <==> n in t && !InSubtree(t, id, n))
      && IsForest(o.table)
  {
    RemoveSubtreeCommits(t, v, id);
    var o := RemoveSubtreeStmt(t, v, id);
    forall n
      ensures n in o.table <==> n in t && !InSubtree(t, id, n)
    {
      SubtreeIdsAreSubtree(t, v, id, n);
    }
    RestrictionKeepsForest(t, o.table);
  }

  /** What removeSubtree deletes is `id` together with what getDescendants(id) reports. */
  lemma RemoveSubtreeDeletesDescendants(t: Table, v: Variant, id: int)
    requires Valid(t) && IsForest(t) && id in t
    ensures !IsProperAncestor(t, id, id)
    ensures var o := RemoveSubtreeStmt(t, v, id);
      o.Committed? && o.table.Keys == t.Keys - ({id} + DescendantIds(GetDescendants(t, id, v)))
  {
    RemoveSubtreeCommits(t, v, id);
    SubtreeIdsInForest(t, v, id);
  }

  /** A row caught in a cycle is missing from the view, so removing it while it has children aborts. */
  lemma RemoveSubtreeOnCycleAborts(t: Table, v: Variant, id: int, c: int)
    requires Valid(t) && id in t && !Rooted(t, id)
    requires c in t && c != id && t[c].parent == Some(id)
    ensures RemoveSubtreeStmt(t, v, id) == Aborted(ForeignKeyViolation)
  {
    SubtreeIdsAreDescendants(t, v, id);
    if Rooted(t, c) {
      RootDistanceStep(t, c);
    }
    assert id in SubtreeIds(t, v, id);
  }

  // ---------------------------------------------------------------------------
  // insertNode and replacingInsertNode

  /** Two parent links followed from `y`. */
  lemma TwoLinks(t: Table, y: int, p: int, g: Option<int>)
    requires y in t && p in t && t[y].parent == Some(p) && t[p].parent == g
    ensures Up(t, y, 1) == Some(p) && Up(t, y, 2) == g
  {
    assert Up(t, p, 0) == Some(p);
  }

  /** Splicing a new row between `y` and its parent keeps a forest a forest. */
  lemma InsertNodeSpliceKeepsForest(t: Table, id: int, name: string, ofset: int, y: int)
    requires Valid(t) && IsForest(t) && y in t && id !in t
    ensures var o := InsertNodeStmt(t, id, name, ofset, t[y].parent, Some(y));
      && o.Committed? && IsForest(o.table)
      && Up(o.table, y, 1) == Some(id) && Up(o.table, y, 2) == t[y].parent
  {
    var x := t[y].parent;
    var t' := InsertNodeStmt(t, id, name, ofset, x, Some(y)).table;
    SpliceRows(t, id, name, ofset, y);
    InsertAboveKeepsForest(t, t', id, x);
    TwoLinks(t', y, id, x);
  }

  /** The rows after a splice above `y`: the new row takes y's parent, y hangs under it, the rest keep theirs. */
  lemma SpliceRows(t: Table, id: int, name: string, ofset: int, y: int)
    requires Valid(t) && IsForest(t) && y in t && id !in t
    ensures var o := InsertNodeStmt(t, id, name, ofset, t[y].parent, Some(y));
      && o.Committed? && o.table.Keys == t.Keys + {id}
      && o.table[id].parent == t[y].parent && o.table[y].parent == Some(id)
      && forall m :: m in t ==> o.table[m].parent == t[m].parent || (o.table[m].parent == Some(id) && t[m].parent == t[y].parent)
  {
    NoSelfAncestor(t, y, RootDistance(t, y), 1);
  }

  /**
   * A new row `id` under `x`, added to a forest: `y` lies above `id` exactly
   * when `y` lies above `x`.
   */
  lemma NewRowSubtree(t: Table, id: int, x: Option<int>, name: string, ofset: int, y: int)
    requires Valid(t) && id !in t && y in t && (x.Some? ==> x.value in t)
    ensures InSubtree(t[id := Node(x, name, ofset)], y, id) <==> x.Some? && InSubtree(t, y, x.value)
  {
    var t1 := t[id := Node(x, name, ofset)];
    if InSubtree(t1, y, id) {
      var k: nat :| Up(t1, id, k) == Some(y);
      assert k != 0 && x.Some?;
      UpInExtension(t, t1, x.value, k - 1);
      assert Up(t, x.value, k - 1) == Some(y);
    }
    if x.Some? && InSubtree(t, y, x.value) {
      var k: nat :| Up(t, x.value, k) == Some(y);
      UpInExtension(t, t1, x.value, k);
      assert Up(t1, id, k + 1) == Some(y);
    }
  }

  /** insertNode with an existing `y` is addNode under `x` followed by moveSubtree(y, id). */
  lemma InsertNodeAsMove(t: Table, id: int, name: string, ofset: int, x: Option<int>, y: int)
    requires Valid(t) && id !in t && x != Some(id) && (x.Some? ==> x.value in t) && y in t
    ensures var t1 := t[id := Node(x, name, ofset)];
      && Valid(t1) && InsertNodeStmt(t, id, name, ofset, x, Some(y)).Committed?
      && MoveSubtreeStmt(t1, y, Some(id)).Committed?
      && InsertNodeStmt(t, id, name, ofset, x, Some(y)).table == MoveSubtreeStmt(t1, y, Some(id)).table
  {
    var t1 := t[id := Node(x, name, ofset)];
    assert Valid(t1);
    var o := InsertNodeStmt(t, id, name, ofset, x, Some(y));
    var m := MoveSubtreeStmt(t1, y, Some(id));
    assert o.table == m.table;
  }

  /** In a forest, insertNode with an existing `y` and a parent `x` other than the new row. */
  lemma InsertNodeAboveRowForestIff(t: Table, id: int, name: string, ofset: int, x: Option<int>, y: int)
    requires Valid(t) && IsForest(t) && id !in t && x != Some(id) && (x.Some? ==> x.value in t) && y in t
    ensures IsForest(InsertNodeStmt(t, id, name, ofset, x, Some(y)).table) <==> x.None? || !InSubtree(t, y, x.value)
  {
    var t1 := t[id := Node(x, name, ofset)];
    InsertAboveKeepsForest(t, t1, id, x);
    InsertNodeAsMove(t, id, name, ofset, x, y);
    var m := MoveSubtreeStmt(t1, y, Some(id));
    var after := InsertNodeStmt(t, id, name, ofset, x, Some(y)).table;
    assert m.After(t1) == after;
    MoveSubtreeForestIff(t1, y, Some(id));
    assert IsForest(m.After(t1)) <==> m.Aborted? || Some(id).None? || !InSubtree(t1, y, Some(id).value);
    assert IsForest(after) <==> !InSubtree(t1, y, id);
    NewRowSubtree(t, id, x, name, ofset, y);
  }

  /**
   * In a forest, a committed insertNode leaves a forest exactly when the new
   * row is not its own parent and `y`, if it names a row, does not lie above `x`.
   */
  lemma InsertNodeForestIff(t: Table, id: int, name: string, ofset: int, x: Option<int>, y: Option<int>)
    requires Valid(t) && IsForest(t)
    ensures var o := InsertNodeStmt(t, id, name, ofset, x, y);
      o.Committed? ==>
        (IsForest(o.table) <==> x != Some(id) && (y.None? || y.value !in t || x.None? || !InSubtree(t, y.value, x.value)))
  {
    var o := InsertNodeStmt(t, id, name, ofset, x, y);
    if o.Committed? {
      if x == Some(id) {
        assert Up(o.table, id, 1) == Some(id);
        CycleNotRooted(o.table, id, 1);
      } else if y.Some? && y.value in t {
        InsertNodeAboveRowForestIff(t, id, name, ofset, x, y.value);
      } else {
        var t1 := t[id := Node(x, name, ofset)];
        InsertAboveKeepsForest(t, t1, id, x);
        assert o.table == t1;
      }
    }
  }

  /** Inserting above `y` under a row of `y`'s own subtree closes a cycle through `y`. */
  lemma InsertNodeUnderOwnTargetMakesCycle(t: Table, id: int, name: string, ofset: int, d: int, y: int)
    requires Valid(t) && id !in t && y in t && Rooted(t, y) && d in t && InSubtree(t, y, d)
    ensures var o := InsertNodeStmt(t, id, name, ofset, Some(d), Some(y));
      o.Committed? && !Rooted(o.table, y)
  {
    var t' := InsertNodeStmt(t, id, name, ofset, Some(d), Some(y)).table;
    var k: nat :| Up(t, d, k) == Some(y);
    PathIntoUnchanged(t, t', y, d, k);
    assert Up(t', y, 2) == Some(d);
    UpAdd(t', y, 2, k);
    CycleNotRooted(t', y, 2 + k);
  }

  /** replacingInsertNode keeps a forest a forest unless the new row is its own parent. */
  lemma ReplacingInsertForestIff(t: Table, id: int, parent: Option<int>, name: string, ofset: int)
    requires Valid(t) && IsForest(t)
    ensures var o := ReplacingInsertNodeStmt(t, id, parent, name, ofset);
      o.Committed? ==> (IsForest(o.table) <==> parent != Some(id))
  {
    var o := ReplacingInsertNodeStmt(t, id, parent, name, ofset);
    if o.Committed? {
      if parent == Some(id) {
        assert Up(o.table, id, 1) == Some(id);
        CycleNotRooted(o.table, id, 1);
      } else {
        InsertAboveKeepsForest(t, o.table, id, parent);
      }
    }
  }
}
