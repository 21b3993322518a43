/**
 * The recursive view `<table>_view (id, ancestors, depth, cycle)` that
 * createView defines and view reads.  The view is a plain view, so every read
 * evaluates it on the current table: the root rows seed it, and each
 * `UNION ALL` round joins the table's rows to the records of the previous
 * round whose cycle flag is false.
 */
module ClosureView {
  import opened Sql
  import opened Forest
  import opened Traversal

  /** A record of the view: the row id, its ancestor ids from the root down, its depth and the cycle flag. */
  datatype ClosureRecord = ClosureRecord(id: int, ancestors: seq<int>, depth: int, cycle: bool)

  /** The non-recursive term: `SELECT id, '{}', 0, FALSE ... WHERE parent_id IS NULL`. */
  function RootRecords(t: Table): set<ClosureRecord>
  {
    set n | n in t && t[n].parent.None? :: ClosureRecord(n, [], 0, false)
  }

  /** The depth step of the recursive term: `t.depth + 1 + n.ofset` in lib/, `t.depth + 1` in src/. */
  function StepDepth(t: Table, v: Variant, n: int, d: int): int
    requires n in t
  {
    match v
    case Lib => d + 1 + t[n].ofset
    case Src => d + 1
  }

  /**
   * The recursive term over the previous round's records `work`:
   * `FROM table n, view t WHERE n.parent_id = t.id AND NOT t.cycle`, giving
   * `(n.id, t.ancestors || n.parent_id, depth step, n.parent_id = ANY(t.ancestors))`.
   */
  function ExpandRecords(t: Table, v: Variant, work: set<ClosureRecord>): set<ClosureRecord>
  {
    set rec, n | rec in work && !rec.cycle && n in t && t[n].parent == Some(rec.id) ::
      ClosureRecord(n, rec.ancestors + [rec.id], StepDepth(t, v, n, rec.depth), rec.id in rec.ancestors)
  }

  /** UNION ALL iteration: every round's records are kept; stop when a round yields nothing. */
  function AllRounds(t: Table, v: Variant, work: set<ClosureRecord>, fuel: nat): (r: set<ClosureRecord>)
    ensures fuel > 0 ==> work <= r
    ensures forall rec :: rec in r && rec !in work ==> rec.id in t
    decreases fuel
  {
    if work == {} || fuel == 0 then {}
    else work + AllRounds(t, v, ExpandRecords(t, v, work), fuel - 1)
  }

  /**
   * The records of the view.  |t| rounds always reach the fixpoint: a record
   * k rounds deep is a row k links below a root, and k < |t| (ClosureIsLevels).
   * Every record names a row of the table.
   */
  function Closure(t: Table, v: Variant): (r: set<ClosureRecord>)
    ensures forall rec :: rec in r ==> rec.id in t
  {
    AllRounds(t, v, RootRecords(t), |t|)
  }

  /** Every root seeds the view with no ancestors at depth 0. */
  lemma RootsSeedView(t: Table, v: Variant, n: int)
    requires IsRoot(t, n)
    ensures ClosureRecord(n, [], 0, false) in Closure(t, v)
  {
    assert |t| > 0 by { assert n in t.Keys; }
  }

  /** A row as view() and createView() report it: lib/ reads `id, ancestors, depth`, src/ reads `*`. */
  datatype ViewRow = ViewRow(id: int, ancestors: seq<int>, depth: int, cycle: Option<bool>)

  function ViewRows(t: Table, v: Variant): (rows: set<ViewRow>)
    ensures forall r :: r in rows ==> (r.cycle.Some? <==> v == Src)
  {
    set rec | rec in Closure(t, v) ::
      ViewRow(rec.id, rec.ancestors, rec.depth, if v == Src then Some(rec.cycle) else None)
  }

  // ---------------------------------------------------------------------------
  // The rounds as levels below the roots

  /** The depth the view gives a row `k` links below its root. */
  function ClosureDepth(t: Table, v: Variant, n: int, k: nat): int
    decreases k
  {
    if k == 0 || n !in t then 0
    else match t[n].parent
      case None => 0
      case Some(p) => StepDepth(t, v, n, ClosureDepth(t, v, p, k - 1))
  }

  /** The record the view holds for a row `k` links below a root. */
  function RecordAt(t: Table, v: Variant, n: int, k: nat): ClosureRecord
  {
    ClosureRecord(n, Chain(t, n, k), ClosureDepth(t, v, n, k), false)
  }

  /** The records of round k: one per row exactly k links below a root. */
  ghost function RecordLevel(t: Table, v: Variant, k: nat): set<ClosureRecord>
  {
    set n | n in t && ReachesRoot(t, n, k) :: RecordAt(t, v, n, k)
  }

  /** The union of L(j), ..., L(j + fuel - 1). */
  ghost function LevelsFrom(L: nat -> set<ClosureRecord>, j: nat, fuel: nat): set<ClosureRecord>
    decreases fuel
  {
    if fuel == 0 then {} else L(j) + LevelsFrom(L, j + 1, fuel - 1)
  }

  /** A row is not on its own chain to the root. */
  lemma NotOnOwnChain(t: Table, n: int, k: nat)
    requires ReachesRoot(t, n, k)
    ensures n !in Chain(t, n, k)
  {
    if n in Chain(t, n, k) {
      ChainMemberIsAncestor(t, n, k, n);
      var i :| 1 <= i <= k && Up(t, n, i) == Some(n);
      NoSelfAncestor(t, n, k, i);
    }
  }

  /** One round of the recursive term maps the records of round k onto those of round k + 1. */
  lemma ExpandStep(t: Table, v: Variant, k: nat)
    ensures ExpandRecords(t, v, RecordLevel(t, v, k)) == RecordLevel(t, v, k + 1)
  {
    var cur, next := RecordLevel(t, v, k), RecordLevel(t, v, k + 1);
    forall r | r in ExpandRecords(t, v, cur) ensures r in next {
      var rec, n :| rec in cur && !rec.cycle && n in t && t[n].parent == Some(rec.id)
        && r == ClosureRecord(n, rec.ancestors + [rec.id], StepDepth(t, v, n, rec.depth), rec.id in rec.ancestors);
      var p := rec.id;
      assert Up(t, n, k + 1) == Up(t, p, k);
      NotOnOwnChain(t, p, k);
      assert r == RecordAt(t, v, n, k + 1);
    }
    forall r | r in next ensures r in ExpandRecords(t, v, cur) {
      var n := r.id;
      var p := t[n].parent.value;
      assert Up(t, n, k + 1) == Up(t, p, k);
      var rec := RecordAt(t, v, p, k);
      assert rec in cur;
      NotOnOwnChain(t, p, k);
      assert r == ClosureRecord(n, rec.ancestors + [rec.id], StepDepth(t, v, n, rec.depth), rec.id in rec.ancestors);
    }
  }

  /** UNION ALL over rounds that follow the levels collects those levels. */
  lemma {:induction false} AllRoundsCollectLevels(t: Table, v: Variant, L: nat -> set<ClosureRecord>, j: nat, fuel: nat)
    requires forall k: nat :: ExpandRecords(t, v, L(k)) == L(k + 1)
    ensures AllRounds(t, v, L(j), fuel) == LevelsFrom(L, j, fuel)
    decreases fuel
  {
    if fuel > 0 {
      AllRoundsCollectLevels(t, v, L, j + 1, fuel - 1);
      if L(j) == {} {
        assert ExpandRecords(t, v, L(j)) == {};
        assert L(j + 1) == {};
        assert AllRounds(t, v, L(j + 1), fuel - 1) == {};
      }
    }
  }

  lemma {:induction false} LevelsFromMembers(L: nat -> set<ClosureRecord>, j: nat, fuel: nat, r: ClosureRecord)
    ensures r in LevelsFrom(L, j, fuel) <==> exists k: nat :: j <= k < j + fuel && r in L(k)
    decreases fuel
  {
    if fuel > 0 {
      LevelsFromMembers(L, j + 1, fuel - 1, r);
    }
  }

  /** The |t| rounds of the view are the levels 0 .. |t| - 1. */
  lemma ClosureIsFirstLevels(t: Table, v: Variant)
    ensures forall r :: r in Closure(t, v) <==> exists k: nat :: k < |t| && r in RecordLevel(t, v, k)
  {
    var L := (k: nat) => RecordLevel(t, v, k);
    forall k: nat ensures ExpandRecords(t, v, L(k)) == L(k + 1) {
      ExpandStep(t, v, k);
    }
    assert RootRecords(t) == L(0);
    AllRoundsCollectLevels(t, v, L, 0, |t|);
    assert Closure(t, v) == LevelsFrom(L, 0, |t|);
    forall r ensures r in Closure(t, v) <==> exists k: nat :: k < |t| && r in RecordLevel(t, v, k) {
      LevelsFromMembers(L, 0, |t|, r);
      if r in Closure(t, v) {
        var k: nat :| k < |t| && r in L(k);
        assert r in RecordLevel(t, v, k);
      }
      if exists k: nat :: k < |t| && r in RecordLevel(t, v, k) {
        var k: nat :| k < |t| && r in RecordLevel(t, v, k);
        assert r in L(k);
      }
    }
  }

  /** The view holds exactly the records of rows below a root, each at its own level. */
  lemma ClosureIsLevels(t: Table, v: Variant)
    ensures forall r :: r in Closure(t, v) <==> exists k: nat :: r in RecordLevel(t, v, k)
  {
    ClosureIsFirstLevels(t, v);
    forall r, k: nat | r in RecordLevel(t, v, k) ensures k < |t| {
      RootDistanceBound(t, r.id, k);
    }
  }

  // ---------------------------------------------------------------------------
  // What the view holds

  function ViewIds(t: Table, v: Variant): set<int>
  {
    set r | r in Closure(t, v) :: r.id
  }

  /**
   * A row appears in the view exactly when its parent chain reaches a root:
   * rows on or below a parent cycle never appear.
   */
  lemma ViewHoldsRootedRows(t: Table, v: Variant)
    ensures forall n :: n in ViewIds(t, v) <==> n in t && Rooted(t, n)
  {
    ClosureIsLevels(t, v);
    forall n | n in t && Rooted(t, n) ensures n in ViewIds(t, v) {
      var k :| ReachesRoot(t, n, k);
      assert RecordAt(t, v, n, k) in RecordLevel(t, v, k);
    }
  }

  /**
   * Every record of the view has its cycle flag false, one record per row,
   * and its ancestor list is the row's id chain from the root down to its
   * parent: it holds exactly the row's proper ancestors, the root first.
   */
  lemma ViewRecordsAreChains(t: Table, v: Variant)
    ensures forall r :: r in Closure(t, v) ==>
      && !r.cycle
      && ReachesRoot(t, r.id, |r.ancestors|)
      && r.ancestors == Chain(t, r.id, |r.ancestors|)
      && (|r.ancestors| > 0 ==> IsRoot(t, r.ancestors[0]) && Some(r.ancestors[|r.ancestors| - 1]) == Parent(t, r.id))
    ensures forall r1, r2 :: r1 in Closure(t, v) && r2 in Closure(t, v) && r1.id == r2.id ==> r1 == r2
  {
    ClosureIsLevels(t, v);
    forall r | r in Closure(t, v)
      ensures ReachesRoot(t, r.id, |r.ancestors|) && r.ancestors == Chain(t, r.id, |r.ancestors|)
      ensures |r.ancestors| > 0 ==> IsRoot(t, r.ancestors[0]) && Some(r.ancestors[|r.ancestors| - 1]) == Parent(t, r.id)
    {
      var k: nat :| r in RecordLevel(t, v, k);
      ChainLength(t, r.id, k);
      if k > 0 {
        ChainAt(t, r.id, k, 0);
        ChainAt(t, r.id, k, k - 1);
        assert Up(t, r.id, 1) == Parent(t, r.id);
      }
    }
    forall r1, r2 | r1 in Closure(t, v) && r2 in Closure(t, v) && r1.id == r2.id ensures r1 == r2 {
      var j: nat :| r1 in RecordLevel(t, v, j);
      var k: nat :| r2 in RecordLevel(t, v, k);
      RootDistanceUnique(t, r1.id, j, k);
    }
  }

  /** A record's ancestor list holds exactly the row's proper ancestors. */
  lemma ViewAncestorsAreProperAncestors(t: Table, v: Variant, r: ClosureRecord, x: int)
    requires r in Closure(t, v)
    ensures x in r.ancestors <==> IsProperAncestor(t, x, r.id)
  {
    ViewRecordsAreChains(t, v);
    var k := |r.ancestors|;
    if x in r.ancestors {
      ChainMemberIsAncestor(t, r.id, k, x);
    }
    if IsProperAncestor(t, x, r.id) {
      var i :| 1 <= i && Up(t, r.id, i) == Some(x);
      AncestorWithinRootDistance(t, r.id, k, i);
      AncestorIsChainMember(t, r.id, k, i, x);
    }
  }

  /**
   * The view's depth column: 0 for a root, and a record's parent's depth
   * plus 1 (plus the row's ofset in lib/) for any other row; in src/ that
   * makes it the length of the ancestor list.
   */
  lemma ViewDepths(t: Table, v: Variant)
    requires Valid(t)
    ensures forall r :: r in Closure(t, v) && IsRoot(t, r.id) ==> r.ancestors == [] && r.depth == 0
    ensures forall r :: r in Closure(t, v) && !IsRoot(t, r.id) ==>
      exists q :: q in Closure(t, v) && Some(q.id) == Parent(t, r.id) && r.depth == StepDepth(t, v, r.id, q.depth)
    ensures v == Src ==> forall r :: r in Closure(t, v) ==> r.depth == |r.ancestors|
  {
    ClosureIsLevels(t, v);
    forall r | r in Closure(t, v)
      ensures IsRoot(t, r.id) ==> r.ancestors == [] && r.depth == 0
      ensures !IsRoot(t, r.id) ==>
        exists q :: q in Closure(t, v) && Some(q.id) == Parent(t, r.id) && r.depth == StepDepth(t, v, r.id, q.depth)
      ensures v == Src ==> r.depth == |r.ancestors|
    {
      var k: nat :| r in RecordLevel(t, v, k);
      ChainLength(t, r.id, k);
      if IsRoot(t, r.id) {
        RootDistanceUnique(t, r.id, k, 0);
      } else {
        var p := t[r.id].parent.value;
        assert k != 0;
        assert Up(t, r.id, k) == Up(t, p, k - 1);
        var q := RecordAt(t, v, p, k - 1);
        assert q in RecordLevel(t, v, k - 1);
      }
      if v == Src {
        SrcDepthIsLinks(t, r.id, k);
      }
    }
  }

  lemma {:induction false} SrcDepthIsLinks(t: Table, n: int, k: nat)
    requires ReachesRoot(t, n, k)
    ensures ClosureDepth(t, Src, n, k) == k
    decreases k
  {
    if k > 0 {
      assert Up(t, n, k) == Up(t, t[n].parent.value, k - 1);
      SrcDepthIsLinks(t, t[n].parent.value, k - 1);
    }
  }

  /**
   * The view's ancestors and getAncestors agree: the ancestor list
   * is getAncestors' ids read from the root end.
   */
  lemma ViewAncestorsReverseGetAncestors(t: Table, v: Variant, r: ClosureRecord)
    requires Valid(t) && r in Closure(t, v)
    ensures Rooted(t, r.id)
    ensures var up := GetAncestors(t, r.id);
      |up| == |r.ancestors| && forall i :: 0 <= i < |up| ==> up[i].id == r.ancestors[|up| - 1 - i]
  {
    ViewRecordsAreChains(t, v);
    assert ReachesRoot(t, r.id, |r.ancestors|) && r.ancestors == Chain(t, r.id, |r.ancestors|);
    ChainReversesAncestors(t, r.id, |r.ancestors|);
  }

  /** The chain of a row to its root, read backwards, is what getAncestors lists. */
  lemma ChainReversesAncestors(t: Table, n: int, k: nat)
    requires Valid(t) && n in t && ReachesRoot(t, n, k)
    ensures |Chain(t, n, k)| == k
    ensures var up := GetAncestors(t, n);
      |up| == k && forall i :: 0 <= i < k ==> up[i].id == Chain(t, n, k)[k - 1 - i]
  {
    ChainLength(t, n, k);
    var up := GetAncestors(t, n);
    AncestorsAreParentChain(t, n);
    RootDistanceUnique(t, n, k, |up|);
    forall i | 0 <= i < k ensures up[i].id == Chain(t, n, k)[k - 1 - i] {
      ChainAt(t, n, k, k - 1 - i);
      assert k - (k - 1 - i) == i + 1;
      assert Up(t, n, i + 1) == Some(up[i].id);
    }
  }

  // ---------------------------------------------------------------------------
  // The rows removeSubtree deletes

  /**
   * `WHERE id IN (SELECT id FROM view AS t WHERE id = ANY(t.ancestors)) OR id = <id>`:
   * the row itself and every row whose view record lists it as an ancestor.
   */
  function SubtreeIds(t: Table, v: Variant, id: int): (ids: set<int>)
    ensures id in ids
    ensures forall n :: n in ids && n != id ==> n in t
  {
    {id} + set r | r in Closure(t, v) && id in r.ancestors :: r.id
  }

  /**
   * The rows removeSubtree deletes are `id` and the rows below it whose chain
   * reaches a root; on a table that is a forest, those are `id` and the ids
   * getDescendants(id) returns.
   */
  lemma SubtreeIdsAreDescendants(t: Table, v: Variant, id: int)
    ensures forall n :: n in SubtreeIds(t, v, id) <==>
      n == id || (n in t && Rooted(t, n) && IsProperAncestor(t, id, n))
  {
    ViewHoldsRootedRows(t, v);
    forall n | n != id && n in t && Rooted(t, n) && IsProperAncestor(t, id, n)
      ensures n in SubtreeIds(t, v, id)
    {
      assert n in ViewIds(t, v);
      var r :| r in Closure(t, v) && r.id == n;
      ViewAncestorsAreProperAncestors(t, v, r, id);
    }
    forall n | n in SubtreeIds(t, v, id) && n != id
      ensures n in t && Rooted(t, n) && IsProperAncestor(t, id, n)
    {
      var r :| r in Closure(t, v) && id in r.ancestors && r.id == n;
      assert n in ViewIds(t, v);
      ViewAncestorsAreProperAncestors(t, v, r, id);
    }
  }

  lemma SubtreeIdsInForest(t: Table, v: Variant, id: int)
    requires Valid(t) && IsForest(t) && id in t
    ensures !IsProperAncestor(t, id, id)
    ensures SubtreeIds(t, v, id) == {id} + DescendantIds(GetDescendants(t, id, v))
  {
    RootedNotOwnAncestor(t, id);
    SubtreeIdsAreDescendants(t, v, id);
    DescendantsAreProperDescendants(t, id, v);
  }
}
