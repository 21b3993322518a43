/**
 * The seven mutations of PostgresTree, one SQL statement each.  A statement
 * computes its candidate table from the table as it was when the statement
 * began (the outer UPDATE of a data-modifying WITH does not see the rows its
 * sub-statements insert or delete), then the foreign key is checked at the
 * end of the statement: the statement either commits the candidate or aborts
 * and leaves the table as it was.
 */
module Mutations {
  import opened Sql
  import opened Forest
  import opened ClosureView

  /** How a statement ends: committed with the new table and the rows it returns, or aborted. */
  datatype Outcome<R> = Committed(table: Table, rows: R) | Aborted(error: SqlError)
  {
    /** What the caller's promise resolves to, or rejects with. */
    function Reply(): Result<R>
    {
      if Committed? then Success(rows) else Failure(error)
    }

    /** The table once the statement has ended. */
    function After(before: Table): Table
    {
      if Committed? then table else before
    }
  }

  /** End of statement: the candidate commits only if it satisfies the foreign key. */
  function Finish<R>(candidate: Table, rows: R): (o: Outcome<R>)
    ensures o.Committed? <==> Valid(candidate)
    ensures o.Committed? ==> o.table == candidate && o.rows == rows
    ensures o.Aborted? ==> o.error == ForeignKeyViolation
  {
    if Valid(candidate) then Committed(candidate, rows) else Aborted(ForeignKeyViolation)
  }

  /** `UPDATE ... SET parent_id = to WHERE parent_id = from`; `parent_id = NULL` matches no row. */
  function Repoint(t: Table, from: Option<int>, to: Option<int>): (t': Table)
    ensures t'.Keys == t.Keys
    ensures forall n :: n in t && from.Some? && t[n].parent == from ==> t'[n] == Node(to, t[n].name, t[n].ofset)
    ensures forall n :: n in t && (from.None? || t[n].parent != from) ==> t'[n] == t[n]
  {
    map n | n in t :: if from.Some? && t[n].parent == from then t[n].(parent := to) else t[n]
  }

  /** Re-pointing keeps the foreign key unless a row moves under a parent that is not there. */
  lemma RepointValid(t: Table, from: Option<int>, to: Option<int>)
    requires Valid(t)
    ensures Valid(Repoint(t, from, to)) <==>
      to.None? || to.value in t || forall n :: n in t ==> from.None? || t[n].parent != from
  {
    if !(to.None? || to.value in t || forall n :: n in t ==> from.None? || t[n].parent != from) {
      var n :| n in t && from.Some? && t[n].parent == from;
      assert Repoint(t, from, to)[n].parent == to;
    }
  }

  // ---------------------------------------------------------------------------
  // addNode

  /**
   * `INSERT ... VALUES (id, parent, name, offset) RETURNING *`: a taken id
   * violates the primary key, an unknown parent the foreign key; a row may
   * name itself as its parent.
   */
  function AddNodeStmt(t: Table, id: int, parent: Option<int>, name: string, ofset: int): (o: Outcome<NodeRow>)
    requires Valid(t)
    ensures o.Committed? <==> id !in t && (parent.None? || parent.value in t || parent.value == id)
    ensures o.Aborted? ==> o.error == (if id in t then UniqueViolation else ForeignKeyViolation)
    ensures o.Committed? ==>
      && Valid(o.table) && o.table.Keys == t.Keys + {id}
      && o.rows == NodeRow(id, parent, name, ofset) && o.rows == RowOf(o.table, id)
      && forall n :: n in t ==> o.table[n] == t[n]
  {
    if id in t then Aborted(UniqueViolation)
    else
      var candidate := t[id := Node(parent, name, ofset)];
      assert candidate[id].parent == parent;
      Finish(candidate, NodeRow(id, parent, name, ofset))
  }

  // ---------------------------------------------------------------------------
  // moveSubtree and moveDescendants

  /**
   * `UPDATE ... SET parent_id = newParent WHERE id = nodeId`: only the row
   * `nodeId` changes; an unknown `nodeId` matches nothing.  No RETURNING
   * clause, so the reply is `true`.
   */
  function MoveSubtreeStmt(t: Table, nodeId: int, newParent: Option<int>): (o: Outcome<bool>)
    requires Valid(t)
    ensures o.Committed? <==> nodeId !in t || newParent.None? || newParent.value in t
    ensures o.Aborted? ==> o.error == ForeignKeyViolation
    ensures o.Committed? ==>
      && o.rows && Valid(o.table) && o.table.Keys == t.Keys
      && (nodeId in t ==> o.table[nodeId] == Node(newParent, t[nodeId].name, t[nodeId].ofset))
      && forall n :: n in t && n != nodeId ==> o.table[n] == t[n]
  {
    var candidate := if nodeId in t then t[nodeId := t[nodeId].(parent := newParent)] else t;
    assert nodeId in t ==> candidate[nodeId].parent == newParent;
    Finish(candidate, true)
  }

  /**
   * `UPDATE ... SET parent_id = newParent WHERE parent_id = nodeId`: every
   * child of `nodeId` moves, `nodeId`'s own row stays unless it is its own
   * parent, and a null `nodeId` matches nothing.
   */
  function MoveDescendantsStmt(t: Table, nodeId: Option<int>, newParent: Option<int>): (o: Outcome<bool>)
    requires Valid(t)
    ensures o.Committed? <==>
      newParent.None? || newParent.value in t || forall n :: n in t ==> nodeId.None? || t[n].parent != nodeId
    ensures o.Aborted? ==> o.error == ForeignKeyViolation
    ensures o.Committed? ==>
      && o.rows && Valid(o.table) && o.table.Keys == t.Keys
      && (forall n :: n in t && nodeId.Some? && t[n].parent == nodeId ==> o.table[n] == Node(newParent, t[n].name, t[n].ofset))
      && (forall n :: n in t && (nodeId.None? || t[n].parent != nodeId) ==> o.table[n] == t[n])
      && (nodeId.Some? && newParent != nodeId ==> forall n :: n in o.table ==> o.table[n].parent != nodeId)
  {
    var candidate := Repoint(t, nodeId, newParent);
    RepointValid(t, nodeId, newParent);
    Finish(candidate, true)
  }

  // ---------------------------------------------------------------------------
  // removeNode

  /**
   * The table after `WITH deleted AS (DELETE ... WHERE id = $1 RETURNING id, parent_id)
   * UPDATE ... SET parent_id = deleted.parent_id FROM deleted WHERE parent_id = deleted.id`:
   * the row is gone and its children point to its former parent.  A row that is
   * its own parent is deleted, not updated.
   */
  function Promote(t: Table, id: int): (r: Table)
    requires id in t
    ensures r.Keys == t.Keys - {id}
    ensures forall n :: n in r ==> r[n].name == t[n].name && r[n].ofset == t[n].ofset
    ensures forall n :: n in r && r[n].parent != t[n].parent ==> t[n].parent == Some(id) && r[n].parent == t[id].parent
    ensures t[id].parent != Some(id) ==> forall n :: n in r ==> r[n].parent != Some(id)
    ensures Valid(t) && t[id].parent != Some(id) ==> Valid(r)
  {
    map n | n in t && n != id :: if t[n].parent == Some(id) then t[n].(parent := t[id].parent) else t[n]
  }

  /** The promoted child rows as they read after the update (what `RETURNING <table>.*` gives). */
  function PromotedRows(t: Table, id: int, after: Table): set<NodeRow>
    requires forall n :: n in t && n != id && t[n].parent == Some(id) ==> n in after
  {
    set n | n in t && n != id && t[n].parent == Some(id) :: RowOf(after, n)
  }

  /**
   * removeNode(id): delete the row and promote its children to its parent,
   * returning the promoted rows.  An unknown id changes nothing and returns
   * no rows.  The statement only aborts when the row is its own parent and
   * has other children, which would be left pointing at the deleted row.
   */
  function RemoveNodeStmt(t: Table, id: int): (o: Outcome<set<NodeRow>>)
    requires Valid(t)
    ensures id !in t ==> o == Committed(t, {})
    ensures o.Committed? <==>
      id !in t || t[id].parent != Some(id) || forall n :: n in t && n != id ==> t[n].parent != Some(id)
    ensures o.Aborted? ==> o.error == ForeignKeyViolation
    ensures o.Committed? && id in t ==>
      && Valid(o.table) && o.table.Keys == t.Keys - {id}
      && (forall n :: n in o.table ==> o.table[n].parent != Some(id))
      && (forall n :: n in o.table && t[n].parent == Some(id) ==> o.table[n] == Node(t[id].parent, t[n].name, t[n].ofset))
      && (forall n :: n in o.table && t[n].parent != Some(id) ==> o.table[n] == t[n])
      && (forall r :: r in o.rows <==> r.id in o.table && t[r.id].parent == Some(id) && r == RowOf(o.table, r.id))
  {
    if id !in t then Committed(t, {})
    else
      var candidate := Promote(t, id);
      Finish(candidate, PromotedRows(t, id, candidate))
  }

  /**
   * The rows removeNode hands back as written.  `RETURNING *` on
   * `UPDATE <table> ... FROM deleted` yields the table's columns followed by
   * deleted's `id` and `parent_id`; node-postgres builds each row object
   * field by field, so the later `id` (the deleted row's) overwrites the
   * promoted child's own id.
   */
  function RemoveNodeRowsAsWritten(t: Table, id: int): (rows: set<NodeRow>)
    requires id in t
    ensures forall r :: r in rows ==>
      && r.id == id && r.parent == t[id].parent
      && exists n :: n in t && n != id && t[n].parent == Some(id) && r.name == t[n].name && r.ofset == t[n].ofset
  {
    set n | n in t && n != id && t[n].parent == Some(id) :: NodeRow(id, t[id].parent, t[n].name, t[n].ofset)
  }

  /**
   * As written, every row removeNode returns carries the deleted row's id, so
   * the caller cannot tell which children were promoted; the corrected
   * statement returns each promoted child under its own id.
   */
  lemma RemoveNodeRowsLoseChildIds(t: Table, id: int, c: int)
    requires Valid(t) && id in t && t[id].parent != Some(id) && c in t && c != id && t[c].parent == Some(id)
    ensures forall r :: r in RemoveNodeRowsAsWritten(t, id) ==> r.id == id
    ensures c !in set r | r in RemoveNodeRowsAsWritten(t, id) :: r.id
    ensures var o := RemoveNodeStmt(t, id);
      o.Committed? && RowOf(o.table, c) in o.rows && c in set r | r in o.rows :: r.id
  {
    var o := RemoveNodeStmt(t, id);
    assert RowOf(o.table, c).id == c;
  }

  /** The smallest case: removing root 1 of the tree 1 -> 2. */
  lemma RemoveNodeRowsCounterexample()
    ensures var t := map[1 := Node(None, "a", 0), 2 := Node(Some(1), "b", 0)];
      && RemoveNodeRowsAsWritten(t, 1) == {NodeRow(1, None, "b", 0)}
      && RemoveNodeStmt(t, 1) == Committed(map[2 := Node(None, "b", 0)], {NodeRow(2, None, "b", 0)})
  {
    var t := map[1 := Node(None, "a", 0), 2 := Node(Some(1), "b", 0)];
    assert RemoveNodeRowsAsWritten(t, 1) == {NodeRow(1, None, "b", 0)} by {
      assert t[2].parent == Some(1);
      forall r | r in RemoveNodeRowsAsWritten(t, 1) ensures r == NodeRow(1, None, "b", 0) {
        var n :| n in t && n != 1 && t[n].parent == Some(1) && r == NodeRow(1, t[1].parent, t[n].name, t[n].ofset);
        assert n == 2;
      }
    }
    var after := map[2 := Node(None, "b", 0)];
    assert Promote(t, 1) == after;
    assert PromotedRows(t, 1, after) == {NodeRow(2, None, "b", 0)} by {
      assert t[2].parent == Some(1);
      forall r | r in PromotedRows(t, 1, after) ensures r == NodeRow(2, None, "b", 0) {
        var n :| n in t && n != 1 && t[n].parent == Some(1) && r == RowOf(after, n);
        assert n == 2;
      }
    }
  }

  // ---------------------------------------------------------------------------
  // removeSubtree

  /**
   * `DELETE ... WHERE id IN (SELECT id FROM view WHERE id = ANY(ancestors)) OR id = <id>`,
   * with the view evaluated on the table the statement starts from.
   */
  function RemoveSubtreeStmt(t: Table, v: Variant, id: int): (o: Outcome<bool>)
    requires Valid(t)
    ensures o.Committed? <==>
      forall n :: n in t && n !in SubtreeIds(t, v, id) && t[n].parent.Some? ==> t[n].parent.value !in SubtreeIds(t, v, id)
    ensures o.Aborted? ==> o.error == ForeignKeyViolation
    ensures o.Committed? ==>
      && o.rows && Valid(o.table)
      && (forall n :: n in o.table <==> n in t && n !in SubtreeIds(t, v, id))
      && (forall n :: n in o.table ==> o.table[n] == t[n])
  {
    var doomed := SubtreeIds(t, v, id);
    var candidate := map n | n in t && n !in doomed :: t[n];
    RemoveSubtreeValid(t, doomed);
    Finish(candidate, true)
  }

  /** Deleting a set of rows keeps the foreign key exactly when no surviving row points into the set. */
  lemma RemoveSubtreeValid(t: Table, doomed: set<int>)
    requires Valid(t)
    ensures Valid(map n | n in t && n !in doomed :: t[n]) <==>
      forall n :: n in t && n !in doomed && t[n].parent.Some? ==> t[n].parent.value !in doomed
  {
    var candidate := map n | n in t && n !in doomed :: t[n];
    if !(forall n :: n in t && n !in doomed && t[n].parent.Some? ==> t[n].parent.value !in doomed) {
      var n :| n in t && n !in doomed && t[n].parent.Some? && t[n].parent.value in doomed;
      assert n in candidate && candidate[n].parent.value !in candidate;
    }
  }

  // ---------------------------------------------------------------------------
  // insertNode and replacingInsertNode

  /**
   * insertNode(node, x, y): insert `node` under `x`, then point row `y` (as it
   * was before the statement) at the new row.  Whether `y`'s parent was `x`
   * is not checked; a null or unknown `y` leaves only the insert.
   */
  function InsertNodeStmt(t: Table, id: int, name: string, ofset: int, x: Option<int>, y: Option<int>): (o: Outcome<bool>)
    requires Valid(t)
    ensures o.Committed? <==> id !in t && (x.None? || x.value in t || x.value == id)
    ensures o.Aborted? ==> o.error == (if id in t then UniqueViolation else ForeignKeyViolation)
    ensures o.Committed? ==>
      && o.rows && Valid(o.table) && o.table.Keys == t.Keys + {id}
      && o.table[id] == Node(x, name, ofset)
      && (y.Some? && y.value in t ==> o.table[y.value] == Node(Some(id), t[y.value].name, t[y.value].ofset))
      && forall n :: n in t && y != Some(n) ==> o.table[n] == t[n]
  {
    if id in t then Aborted(UniqueViolation)
    else
      var inserted := t[id := Node(x, name, ofset)];
      var candidate := if y.Some? && y.value in t then inserted[y.value := t[y.value].(parent := Some(id))] else inserted;
      assert candidate[id].parent == x;
      Finish(candidate, true)
  }

  /**
   * replacingInsertNode(node): insert `node` under `parent` and hand it every
   * row whose parent was `parent` before the statement; the new row keeps
   * `parent`, and a null `parent` re-points nothing.
   */
  function ReplacingInsertNodeStmt(t: Table, id: int, parent: Option<int>, name: string, ofset: int): (o: Outcome<bool>)
    requires Valid(t)
    ensures o.Committed? <==> id !in t && (parent.None? || parent.value in t || parent.value == id)
    ensures o.Aborted? ==> o.error == (if id in t then UniqueViolation else ForeignKeyViolation)
    ensures o.Committed? ==>
      && o.rows && Valid(o.table) && o.table.Keys == t.Keys + {id}
      && o.table[id] == Node(parent, name, ofset)
      && (forall n :: n in t && parent.Some? && t[n].parent == parent ==> o.table[n] == Node(Some(id), t[n].name, t[n].ofset))
      && (forall n :: n in t && (parent.None? || t[n].parent != parent) ==> o.table[n] == t[n])
      && (parent.Some? ==> forall n :: n in o.table && o.table[n].parent == parent ==> n == id)
  {
    if id in t then Aborted(UniqueViolation)
    else
      var candidate := Repoint(t, parent, Some(id))[id := Node(parent, name, ofset)];
      assert candidate[id].parent == parent;
      Finish(candidate, true)
  }
}
