/**
 * The node table of a PostgresTree and the parent-chain facts every other
 * module builds on.  A row is keyed by its `id` (the primary key), so ids are
 * unique by construction; the foreign key on `parent_id` is `Valid`.
 */
module Forest {
  import opened Sql

  /** The two copies of the engine: the built `lib/index.js` and the source `src/index.js`. */
  datatype Variant = Lib | Src

  /** One row of the table without its key: `parent_id`, `name`, `ofset`. */
  datatype Node = Node(parent: Option<int>, name: string, ofset: int)

  type Table = map<int, Node>

  /** A row as `SELECT id, parent_id, name, ofset` (and `RETURNING *`) reports it. */
  datatype NodeRow = NodeRow(id: int, parent: Option<int>, name: string, ofset: int)

  function RowOf(t: Table, n: int): (r: NodeRow)
    requires n in t
    ensures r.id == n && r.parent == t[n].parent && r.name == t[n].name && r.ofset == t[n].ofset
  {
    NodeRow(n, t[n].parent, t[n].name, t[n].ofset)
  }

  /** FOREIGN KEY (parent_id) REFERENCES table(id): every non-null parent names a row. */
  predicate Valid(t: Table)
  {
    forall n :: n in t && t[n].parent.Some? ==> t[n].parent.value in t
  }

  function Parent(t: Table, n: int): Option<int>
  {
    if n in t then t[n].parent else None
  }

  predicate IsRoot(t: Table, n: int)
  {
    n in t && t[n].parent.None?
  }

  /** The k-th ancestor of `n` (n itself for k = 0), or None once the chain leaves the table. */
  function Up(t: Table, n: int, k: nat): Option<int>
    decreases k
  {
    if k == 0 then Some(n)
    else match Parent(t, n)
      case None => None
      case Some(p) => Up(t, p, k - 1)
  }

  /** Following `k` parent links from `n` ends on a root. */
  predicate ReachesRoot(t: Table, n: int, k: nat)
  {
    Up(t, n, k).Some? && IsRoot(t, Up(t, n, k).value)
  }

  /** The parent chain of `n` ends on a root (it does not run into a cycle). */
  ghost predicate Rooted(t: Table, n: int)
  {
    exists k: nat :: ReachesRoot(t, n, k)
  }

  /** Every row's parent chain ends on a root: the table is a forest. */
  ghost predicate IsForest(t: Table)
  {
    forall n :: n in t ==> Rooted(t, n)
  }

  /** `a` is reached from `n` by one or more parent links. */
  ghost predicate IsProperAncestor(t: Table, a: int, n: int)
  {
    exists k :: 1 <= k && Up(t, n, k) == Some(a)
  }

  /** The ids on the first `k` parent links of `n`, in root-to-parent order. */
  function Chain(t: Table, n: int, k: nat): seq<int>
    decreases k
  {
    if k == 0 then []
    else match Parent(t, n)
      case None => []
      case Some(p) => Chain(t, p, k - 1) + [p]
  }

  /** Every row's `ofset` is non-negative, as the weights are meant to be. */
  predicate NonNegativeOffsets(t: Table)
  {
    forall n :: n in t ==> t[n].ofset >= 0
  }

  // ---------------------------------------------------------------------------
  // Facts about parent chains

  lemma {:induction false} UpAdd(t: Table, n: int, a: nat, b: nat)
    ensures Up(t, n, a + b) == match Up(t, n, a) case None => None case Some(m) => Up(t, m, b)
    decreases a
  {
    if a > 0 {
      match Parent(t, n)
      case None =>
      case Some(p) => UpAdd(t, p, a - 1, b);
    }
  }

  lemma {:induction false} UpStaysInTable(t: Table, n: int, k: nat)
    requires Valid(t) && n in t && Up(t, n, k).Some?
    ensures Up(t, n, k).value in t
    decreases k
  {
    if k > 0 {
      UpStaysInTable(t, t[n].parent.value, k - 1);
    }
  }

  lemma {:induction false} UpPrefixDefined(t: Table, n: int, i: nat, k: nat)
    requires i <= k && Up(t, n, k).Some?
    ensures Up(t, n, i).Some?
    ensures i < k ==> Up(t, n, i).value in t
    decreases i
  {
    if i > 0 {
      UpPrefixDefined(t, Parent(t, n).value, i - 1, k - 1);
    } else if k > 0 {
      assert Parent(t, n).Some?;
    }
  }

  lemma RootHasNoAncestor(t: Table, r: int, k: nat)
    requires IsRoot(t, r) && k >= 1
    ensures Up(t, r, k) == None
  {
  }

  /** The number of links from a row to its root is unique. */
  lemma RootDistanceUnique(t: Table, n: int, j: nat, k: nat)
    requires ReachesRoot(t, n, j) && ReachesRoot(t, n, k)
    ensures j == k
  {
    if j < k {
      UpAdd(t, n, j, k - j);
    } else if k < j {
      UpAdd(t, n, k, j - k);
    }
  }

  /** A row whose chain reaches a root is not its own proper ancestor. */
  lemma NoSelfAncestor(t: Table, n: int, h: nat, a: nat)
    requires ReachesRoot(t, n, h) && a >= 1
    ensures Up(t, n, a) != Some(n)
  {
    if Up(t, n, a) == Some(n) {
      UpAdd(t, n, a, h);
      RootDistanceUnique(t, n, h, a + h);
    }
  }

  /** Rewriting rows off the chain of `x` leaves the chain's first `k` links alone. */
  lemma {:induction false} UpFrame(t: Table, t': Table, x: int, k: nat)
    requires forall i :: 0 <= i < k && Up(t, x, i).Some? ==>
               Parent(t', Up(t, x, i).value) == Parent(t, Up(t, x, i).value)
    ensures Up(t', x, k) == Up(t, x, k)
    decreases k
  {
    if k > 0 {
      assert Up(t, x, 0) == Some(x);
      match Parent(t, x)
      case None =>
      case Some(p) =>
        forall i | 0 <= i < k - 1 && Up(t, p, i).Some?
          ensures Parent(t', Up(t, p, i).value) == Parent(t, Up(t, p, i).value)
        {
          assert Up(t, x, i + 1) == Up(t, p, i);
        }
        UpFrame(t, t', p, k - 1);
    }
  }

  /** A chain from `n` that comes back to `n` and goes on to `a` makes `a` its own proper ancestor. */
  lemma RepeatMakesCycle(t: Table, n: int, i: nat, k: nat, a: int)
    requires 1 <= i && Up(t, n, i) == Some(n) && Up(t, n, k) == Some(a)
    ensures IsProperAncestor(t, a, a)
  {
    UpAdd(t, n, i, k);
    UpAdd(t, n, k, i);
    assert Up(t, a, i) == Some(a);
  }

  /** Adding rows that no row of a valid table points to leaves the chains of its rows alone. */
  lemma {:induction false} UpInExtension(t: Table, t': Table, n: int, k: nat)
    requires Valid(t) && forall m :: m in t ==> m in t' && t'[m] == t[m]
    ensures n in t ==> Up(t', n, k) == Up(t, n, k)
    decreases k
  {
    if k > 0 && n in t && t[n].parent.Some? {
      UpInExtension(t, t', t[n].parent.value, k - 1);
    }
  }

  /** A chain that survives in a smaller table is the same chain in the full table. */
  lemma {:induction false} UpWithoutRow(t: Table, x: int, y: int, m: nat)
    requires Up(t - {x}, y, m).Some?
    ensures Up(t, y, m) == Up(t - {x}, y, m)
    decreases m
  {
    if m > 0 {
      var p := Parent(t - {x}, y).value;
      UpWithoutRow(t, x, p, m - 1);
    }
  }

  /**
   * Pigeonhole: a chain of `k` links from `n` into a row `a` that is not its
   * own proper ancestor visits distinct rows, so it is shorter than the table.
   */
  lemma {:induction false} AncestorDistanceBound(t: Table, n: int, k: nat, a: int)
    requires Up(t, n, k) == Some(a) && a in t && !IsProperAncestor(t, a, a)
    ensures k < |t|
    decreases k
  {
    if k == 0 {
      assert |t| >= 1 by { assert a in t.Keys; }
    } else {
      var p := Parent(t, n).value;
      assert n in t;
      var t' := t - {n};
      forall i | 0 <= i < k - 1 && Up(t, p, i).Some?
        ensures Parent(t', Up(t, p, i).value) == Parent(t, Up(t, p, i).value)
      {
        assert Up(t, n, i + 1) == Up(t, p, i);
        if Up(t, p, i) == Some(n) {
          RepeatMakesCycle(t, n, i + 1, k, a);
        }
      }
      UpFrame(t, t', p, k - 1);
      assert Up(t, n, k) == Up(t, p, k - 1);
      if a == n {
        RepeatMakesCycle(t, n, k, k, a);
      }
      if IsProperAncestor(t', a, a) {
        var m :| 1 <= m && Up(t', a, m) == Some(a);
        UpWithoutRow(t, n, a, m);
      }
      AncestorDistanceBound(t', p, k - 1, a);
      assert |t'| == |t| - 1 by { assert t'.Keys == t.Keys - {n}; }
    }
  }

  /** A chain that ends on a root is shorter than the table. */
  lemma RootDistanceBound(t: Table, n: int, k: nat)
    requires ReachesRoot(t, n, k)
    ensures k < |t|
  {
    var r := Up(t, n, k).value;
    forall j: nat | 1 <= j
      ensures Up(t, r, j) != Some(r)
    {
      RootHasNoAncestor(t, r, j);
    }
    AncestorDistanceBound(t, n, k, r);
  }

  /** A row whose chain reaches a root is not its own proper ancestor. */
  lemma RootedNotOwnAncestor(t: Table, n: int)
    requires Rooted(t, n)
    ensures !IsProperAncestor(t, n, n)
  {
    var h: nat :| ReachesRoot(t, n, h);
    forall a: nat | 1 <= a
      ensures Up(t, n, a) != Some(n)
    {
      NoSelfAncestor(t, n, h, a);
    }
  }

  /** Every id in the chain is a proper ancestor within `k` links. */
  lemma {:induction false} ChainMemberIsAncestor(t: Table, n: int, k: nat, x: int)
    requires x in Chain(t, n, k)
    ensures exists i :: 1 <= i <= k && Up(t, n, i) == Some(x)
    decreases k
  {
    var p := Parent(t, n).value;
    assert Chain(t, n, k) == Chain(t, p, k - 1) + [p];
    if x == p {
      assert Up(t, n, 1) == Up(t, p, 0) == Some(x);
    } else {
      ChainMemberIsAncestor(t, p, k - 1, x);
      var i :| 1 <= i <= k - 1 && Up(t, p, i) == Some(x);
      assert Up(t, n, i + 1) == Some(x);
    }
  }

  /** Every proper ancestor within `k` links is in the chain. */
  lemma {:induction false} AncestorIsChainMember(t: Table, n: int, k: nat, i: nat, x: int)
    requires 1 <= i <= k && Up(t, n, i) == Some(x)
    ensures x in Chain(t, n, k)
    decreases k
  {
    var p := Parent(t, n).value;
    assert Chain(t, n, k) == Chain(t, p, k - 1) + [p];
    assert Up(t, n, i) == Up(t, p, i - 1);
    if i > 1 {
      AncestorIsChainMember(t, p, k - 1, i - 1, x);
    }
  }

  lemma {:induction false} ChainLength(t: Table, n: int, k: nat)
    requires Up(t, n, k).Some?
    ensures |Chain(t, n, k)| == k
    decreases k
  {
    if k > 0 {
      ChainLength(t, Parent(t, n).value, k - 1);
    }
  }

  lemma {:induction false} ChainAt(t: Table, n: int, k: nat, i: nat)
    requires Up(t, n, k).Some? && i < k
    ensures Up(t, n, k - i).Some? && |Chain(t, n, k)| == k && Chain(t, n, k)[i] == Up(t, n, k - i).value
    decreases k
  {
    ChainLength(t, n, k);
    UpPrefixDefined(t, n, k - i, k);
    var p := Parent(t, n).value;
    ChainLength(t, p, k - 1);
    if i < k - 1 {
      ChainAt(t, p, k - 1, i);
    }
  }

  /** A row with a proper descendant in the table has a child. */
  lemma ProperAncestorHasChild(t: Table, a: int, n: int)
    requires Valid(t) && n in t && IsProperAncestor(t, a, n)
    ensures exists c :: c in t && t[c].parent == Some(a)
  {
    var k :| 1 <= k && Up(t, n, k) == Some(a);
    UpPrefixDefined(t, n, k - 1, k);
    var c := Up(t, n, k - 1).value;
    UpAdd(t, n, k - 1, 1);
    assert c in t && t[c].parent == Some(a);
  }

  /** No ancestor lies beyond the root: a row `k` links up is at most as far as the root. */
  lemma AncestorWithinRootDistance(t: Table, n: int, h: nat, k: nat)
    requires ReachesRoot(t, n, h) && Up(t, n, k).Some?
    ensures k <= h
  {
    if k > h {
      UpAdd(t, n, h, k - h);
      RootHasNoAncestor(t, Up(t, n, h).value, k - h);
    }
  }

  // ---------------------------------------------------------------------------
  // Subtrees, distances to the root, and the shape of a forest

  /** `m` lies in the subtree rooted at `a`: `a` is `m` or one of its ancestors. */
  ghost predicate InSubtree(t: Table, a: int, m: int)
  {
    exists k: nat :: Up(t, m, k) == Some(a)
  }

  /** The number of links from a rooted row to its root. */
  ghost function RootDistance(t: Table, n: int): (k: nat)
    requires Rooted(t, n)
    ensures ReachesRoot(t, n, k)
  {
    var k :| ReachesRoot(t, n, k); k
  }

  /** A row is one link further from the root than its parent. */
  lemma RootDistanceStep(t: Table, n: int)
    requires Rooted(t, n) && n in t && t[n].parent.Some?
    ensures Rooted(t, t[n].parent.value) && RootDistance(t, t[n].parent.value) + 1 == RootDistance(t, n)
  {
    var k := RootDistance(t, n);
    var p := t[n].parent.value;
    assert k != 0;
    assert Up(t, n, k) == Up(t, p, k - 1);
    assert ReachesRoot(t, p, k - 1);
    RootDistanceUnique(t, p, k - 1, RootDistance(t, p));
  }

  /** A row `k` links below a rooted row is rooted, `k` links further from the root. */
  lemma SubtreeDistance(t: Table, a: int, m: int, k: nat)
    requires Rooted(t, a) && Up(t, m, k) == Some(a)
    ensures Rooted(t, m) && RootDistance(t, m) == k + RootDistance(t, a)
  {
    var h := RootDistance(t, a);
    UpAdd(t, m, k, h);
    assert ReachesRoot(t, m, k + h);
    RootDistanceUnique(t, m, k + h, RootDistance(t, m));
  }

  /** A row that is its own proper ancestor never reaches a root. */
  lemma CycleNotRooted(t: Table, n: int, a: nat)
    requires a >= 1 && Up(t, n, a) == Some(n)
    ensures !Rooted(t, n)
  {
    if Rooted(t, n) {
      NoSelfAncestor(t, n, RootDistance(t, n), a);
    }
  }

  /** Below the root of a subtree, the parent of a member is a member. */
  lemma ParentInSubtree(t: Table, a: int, m: int)
    requires m in t && m != a && InSubtree(t, a, m)
    ensures t[m].parent.Some? && InSubtree(t, a, t[m].parent.value)
  {
    var k: nat :| Up(t, m, k) == Some(a);
    assert k != 0;
    assert Up(t, t[m].parent.value, k - 1) == Some(a);
  }

  /** A child of a member of a subtree is a member. */
  lemma ChildInSubtree(t: Table, a: int, m: int)
    requires m in t && t[m].parent.Some? && InSubtree(t, a, t[m].parent.value)
    ensures InSubtree(t, a, m)
  {
    var k: nat :| Up(t, t[m].parent.value, k) == Some(a);
    assert Up(t, m, k + 1) == Some(a);
  }

  /** A row whose parent ranks lower, in a table where every link goes down in rank, is rooted. */
  lemma {:induction false} RankedIsRooted(t: Table, rank: int -> nat, n: int, r: nat)
    requires Valid(t) && n in t && rank(n) <= r
    requires forall m :: m in t && t[m].parent.Some? ==> rank(t[m].parent.value) < rank(m)
    ensures Rooted(t, n)
    decreases r
  {
    match t[n].parent
    case None =>
      assert ReachesRoot(t, n, 0);
    case Some(p) =>
      RankedIsRooted(t, rank, p, r - 1);
      var k: nat :| ReachesRoot(t, p, k);
      assert Up(t, n, k + 1) == Up(t, p, k);
      assert ReachesRoot(t, n, k + 1);
  }

  /** A table is a forest when some ranking of its rows goes down along every parent link. */
  lemma RankedIsForest(t: Table, rank: int -> nat)
    requires Valid(t)
    requires forall m :: m in t && t[m].parent.Some? ==> rank(t[m].parent.value) < rank(m)
    ensures IsForest(t)
  {
    forall n | n in t
      ensures Rooted(t, n)
    {
      RankedIsRooted(t, rank, n, rank(n));
    }
  }

  /** Rewriting only the parent link of a rooted row `a` leaves every path up to `a` as it was. */
  lemma PathIntoUnchanged(t: Table, t': Table, a: int, m: int, k: nat)
    requires Rooted(t, a) && Up(t, m, k) == Some(a)
    requires forall x :: x in t && x != a ==> Parent(t', x) == Parent(t, x)
    ensures Up(t', m, k) == Some(a)
  {
    forall i | 0 <= i < k && Up(t, m, i).Some?
      ensures Parent(t', Up(t, m, i).value) == Parent(t, Up(t, m, i).value)
    {
      UpPrefixDefined(t, m, i, k);
      if Up(t, m, i).value == a {
        UpAdd(t, m, i, k - i);
        NoSelfAncestor(t, a, RootDistance(t, a), k - i);
      }
    }
    UpFrame(t, t', m, k);
  }

  /** A row none of whose first `h` ancestors is `a`, with its root `h` links up, is outside `a`'s subtree. */
  lemma NotInSubtreeWithin(t: Table, a: int, n: int, h: nat)
    requires ReachesRoot(t, n, h)
    requires forall k: nat :: k <= h ==> Up(t, n, k) != Some(a)
    ensures !InSubtree(t, a, n)
  {
    if InSubtree(t, a, n) {
      var k: nat :| Up(t, n, k) == Some(a);
      AncestorWithinRootDistance(t, n, h, k);
    }
  }
}
