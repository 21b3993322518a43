/**
 * The `PostgresTree` object: one table of nodes that its methods query and
 * rewrite in place, one SQL statement per method.  The table starts out as
 * `build` leaves it, empty; whether `createView` has defined the closure view
 * is part of the state, because `view` reads a view that must exist.
 */
module PostgresTreeModule {
  import opened Sql
  import opened Forest
  import opened Traversal
  import opened ClosureView
  import opened Mutations
  import opened Preservation

  class PostgresTree {
    /** Which copy of the engine this object follows. */
    const variant: Variant
    /** The rows of the node table, keyed by id. */
    var table: Table
    /** Whether the `<table>_view` view has been created. */
    var viewDefined: bool

    /** The table's foreign key holds. */
    predicate Valid()
      reads this
    {
      Forest.Valid(table)
    }

    constructor (variant: Variant)
      ensures Valid() && this.variant == variant && table == map[] && !viewDefined
    {
      this.variant := variant;
      table := map[];
      viewDefined := false;
    }

    // -------------------------------------------------------------------------
    // Mutations

    method AddNode(id: int, parent: Option<int>, name: string, ofset: int) returns (r: Result<NodeRow>)
      requires Valid()
      modifies this
      ensures Valid() && viewDefined == old(viewDefined)
      ensures var o := AddNodeStmt(old(table), id, parent, name, ofset);
        r == o.Reply() && table == o.After(old(table))
      ensures r.Failure? ==> table == old(table)
      ensures IsForest(old(table)) && parent != Some(id) ==> IsForest(table)
    {
      var o := AddNodeStmt(table, id, parent, name, ofset);
      if IsForest(table) {
        AddNodeForestIff(table, id, parent, name, ofset);
      }
      table := o.After(table);
      r := o.Reply();
    }

    method MoveSubtree(nodeId: int, newParent: Option<int>) returns (r: Result<bool>)
      requires Valid()
      modifies this
      ensures Valid() && viewDefined == old(viewDefined)
      ensures var o := MoveSubtreeStmt(old(table), nodeId, newParent);
        r == o.Reply() && table == o.After(old(table))
      ensures r.Failure? ==> table == old(table)
      ensures IsForest(old(table)) && nodeId in old(table) ==>
        (IsForest(table) <==> newParent.None? || r.Failure? || !InSubtree(old(table), nodeId, newParent.value))
    {
      var o := MoveSubtreeStmt(table, nodeId, newParent);
      MoveSubtreeForestCase(table, nodeId, newParent);
      table := o.After(table);
      r := o.Reply();
    }

    method MoveDescendants(nodeId: Option<int>, newParent: Option<int>) returns (r: Result<bool>)
      requires Valid()
      modifies this
      ensures Valid() && viewDefined == old(viewDefined)
      ensures var o := MoveDescendantsStmt(old(table), nodeId, newParent);
        r == o.Reply() && table == o.After(old(table))
      ensures r.Failure? ==> table == old(table)
      ensures IsForest(old(table)) ==>
        (IsForest(table) <==>
          || nodeId.None? || newParent.None? || newParent == nodeId
          || !InSubtree(old(table), nodeId.value, newParent.value)
          || forall n :: n in old(table) ==> old(table)[n].parent != nodeId)
    {
      var o := MoveDescendantsStmt(table, nodeId, newParent);
      MoveDescendantsForestCase(table, nodeId, newParent);
      table := o.After(table);
      r := o.Reply();
    }

    method RemoveNode(id: int) returns (r: Result<set<NodeRow>>)
      requires Valid()
      modifies this
      ensures Valid() && viewDefined == old(viewDefined)
      ensures var o := RemoveNodeStmt(old(table), id);
        r == o.Reply() && table == o.After(old(table))
      ensures r.Failure? ==> table == old(table)
      ensures IsForest(old(table)) ==> r.Success? && IsForest(table)
    {
      var o := RemoveNodeStmt(table, id);
      if IsForest(table) && id in table {
        RemoveNodeKeepsForest(table, id);
      }
      table := o.After(table);
      r := o.Reply();
    }

    /** removeSubtree also (re)creates the view it deletes through. */
    method RemoveSubtree(id: int) returns (r: Result<bool>)
      requires Valid()
      modifies this
      ensures Valid() && viewDefined
      ensures var o := RemoveSubtreeStmt(old(table), variant, id);
        r == o.Reply() && table == o.After(old(table))
      ensures r.Failure? ==> table == old(table)
      ensures IsForest(old(table)) && id in old(table) ==>
        && r == Success(true) && IsForest(table)
        && forall n :: n in table <==> n in old(table) && !InSubtree(old(table), id, n)
    {
      var o := RemoveSubtreeStmt(table, variant, id);
      if IsForest(table) && id in table {
        RemoveSubtreeInForest(table, variant, id);
      }
      viewDefined := true;
      table := o.After(table);
      r := o.Reply();
    }

    method InsertNode(id: int, name: string, ofset: int, x: Option<int>, y: Option<int>) returns (r: Result<bool>)
      requires Valid()
      modifies this
      ensures Valid() && viewDefined == old(viewDefined)
      ensures var o := InsertNodeStmt(old(table), id, name, ofset, x, y);
        r == o.Reply() && table == o.After(old(table))
      ensures r.Failure? ==> table == old(table)
      ensures (IsForest(old(table)) && id !in old(table) && y.Some? && y.value in old(table) && x == old(table)[y.value].parent)
        ==> r.Success? && IsForest(table)
      ensures IsForest(old(table)) && r.Success? ==>
        (IsForest(table) <==>
          x != Some(id) && (y.None? || y.value !in old(table) || x.None? || !InSubtree(old(table), y.value, x.value)))
    {
      var o := InsertNodeStmt(table, id, name, ofset, x, y);
      if IsForest(table) && id !in table && y.Some? && y.value in table && x == table[y.value].parent {
        InsertNodeSpliceKeepsForest(table, id, name, ofset, y.value);
      }
      if IsForest(table) {
        InsertNodeForestIff(table, id, name, ofset, x, y);
      }
      table := o.After(table);
      r := o.Reply();
    }

    method ReplacingInsertNode(id: int, parent: Option<int>, name: string, ofset: int) returns (r: Result<bool>)
      requires Valid()
      modifies this
      ensures Valid() && viewDefined == old(viewDefined)
      ensures var o := ReplacingInsertNodeStmt(old(table), id, parent, name, ofset);
        r == o.Reply() && table == o.After(old(table))
      ensures r.Failure? ==> table == old(table)
      ensures IsForest(old(table)) && parent != Some(id) ==> IsForest(table)
    {
      var o := ReplacingInsertNodeStmt(table, id, parent, name, ofset);
      if IsForest(table) {
        ReplacingInsertForestIff(table, id, parent, name, ofset);
      }
      table := o.After(table);
      r := o.Reply();
    }

    // -------------------------------------------------------------------------
    // Queries

    method GetDescendants(id: int) returns (rows: set<DescendantRow>)
      requires Valid() && (id in table ==> !IsProperAncestor(table, id, id))
      ensures rows == Traversal.GetDescendants(table, id, variant)
      ensures forall n :: n in DescendantIds(rows) <==> n in table && IsProperAncestor(table, id, n)
    {
      rows := Traversal.GetDescendants(table, id, variant);
      if id in table {
        DescendantsAreProperDescendants(table, id, variant);
      } else {
        forall n | n in table
          ensures !IsProperAncestor(table, id, n)
        {
          if IsProperAncestor(table, id, n) {
            ProperAncestorHasChild(table, id, n);
          }
        }
      }
    }

    method GetAncestors(id: int) returns (rows: seq<AncestorRow>)
      requires Valid() && (id in table ==> Rooted(table, id))
      ensures rows == Traversal.GetAncestors(table, id)
      ensures id in table ==> ReachesRoot(table, id, |rows|)
      ensures forall i :: 0 <= i < |rows| ==> Up(table, id, i + 1) == Some(rows[i].id)
    {
      rows := Traversal.GetAncestors(table, id);
      if id in table {
        AncestorsAreParentChain(table, id);
      }
    }

    method GetLeaves() returns (rows: set<NodeRow>)
      ensures rows == Traversal.GetLeaves(table)
      ensures forall r :: r in rows <==>
        r.id in table && r == RowOf(table, r.id) && forall c :: c in table ==> table[c].parent != Some(r.id)
    {
      rows := Traversal.GetLeaves(table);
    }

    method GetRoots() returns (rows: set<RootRow>)
      ensures rows == Traversal.GetRoots(table)
      ensures forall r :: r in rows <==> IsRoot(table, r.id) && r.name == table[r.id].name && r.ofset == table[r.id].ofset
    {
      rows := Traversal.GetRoots(table);
    }

    /** `CREATE OR REPLACE RECURSIVE VIEW`, then read it back. */
    method CreateView() returns (rows: set<ViewRow>)
      modifies this
      ensures viewDefined && table == old(table)
      ensures rows == ViewRows(table, variant)
    {
      viewDefined := true;
      rows := ViewRows(table, variant);
    }

    /** Reading a view that was never created fails. */
    method View() returns (r: Result<set<ViewRow>>)
      ensures !viewDefined ==> r == Failure(UndefinedTable)
      ensures viewDefined ==> r == Success(ViewRows(table, variant))
    {
      if viewDefined {
        r := Success(ViewRows(table, variant));
      } else {
        r := Failure(UndefinedTable);
      }
    }
  }
}
