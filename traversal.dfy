/**
 * The read-only queries of PostgresTree: the two recursive CTEs that walk a
 * row's ancestors and descendants with an offset-weighted depth, and the
 * leaf and root scans.  Each recursive CTE is modelled as PostgreSQL
 * evaluates `WITH RECURSIVE ... UNION ...`: the seed rows, then rounds of the
 * recursive term over the rows found in the previous round, dropping rows
 * already in the result, until a round finds nothing new.
 */
module Traversal {
  import opened Sql
  import opened Forest

  // ---------------------------------------------------------------------------
  // getAncestors

  /** A row of `parents`: id, parent_id, name and the depth relative to the start row. */
  datatype AncestorRow = AncestorRow(id: int, parent: Option<int>, name: string, depth: int)

  /**
   * Rounds of the recursive term `JOIN parents p ON op.id = p.parent_id`
   * starting from the working row `cur`; each round yields the parent row with
   * depth `p.depth - 1 - op.ofset`.  Each round adds at most one row, and
   * the climb is empty exactly when no row matches the working row's parent_id.
   */
  function ClimbFrom(t: Table, cur: AncestorRow, fuel: nat): (rows: seq<AncestorRow>)
    ensures |rows| <= fuel
    ensures rows == [] <==> fuel == 0 || cur.parent.None? || cur.parent.value !in t
    decreases fuel
  {
    if fuel == 0 then []
    else match cur.parent
      case None => []
      case Some(p) =>
        if p !in t then []
        else
          var up := AncestorRow(p, t[p].parent, t[p].name, cur.depth - 1 - t[p].ofset);
          [up] + ClimbFrom(t, up, fuel - 1)
  }

  /**
   * getAncestors(id): the seed row (depth 0) is dropped by `slice(1)`, leaving
   * the parent chain of `id`.  The query only terminates when that chain
   * reaches a root, hence the precondition.
   */
  function GetAncestors(t: Table, id: int): (rows: seq<AncestorRow>)
    requires Valid(t) && (id in t ==> Rooted(t, id))
    ensures id !in t ==> rows == []
  {
    if id !in t then []
    else ClimbFrom(t, AncestorRow(id, t[id].parent, t[id].name, 0), |t|)
  }

  function AncestorIds(rows: seq<AncestorRow>): set<int>
  {
    set r | r in rows :: r.id
  }

  /** From a row that reaches a root in `h` links, the climb yields the `h` ancestors in order. */
  lemma {:induction false} ClimbFollowsParents(t: Table, cur: AncestorRow, fuel: nat, h: nat)
    requires Valid(t) && cur.id in t && cur.parent == t[cur.id].parent
    requires ReachesRoot(t, cur.id, h) && fuel >= h
    ensures var rows := ClimbFrom(t, cur, fuel);
      && |rows| == h
      && (forall i :: 0 <= i < h ==>
            Up(t, cur.id, i + 1) == Some(rows[i].id) && rows[i].id in t
            && rows[i].parent == t[rows[i].id].parent && rows[i].name == t[rows[i].id].name)
      && (forall i :: 0 <= i < h ==>
            rows[i].depth == (if i == 0 then cur.depth else rows[i - 1].depth) - 1 - t[rows[i].id].ofset)
    decreases h
  {
    if h > 0 {
      var p := t[cur.id].parent.value;
      var up := AncestorRow(p, t[p].parent, t[p].name, cur.depth - 1 - t[p].ofset);
      assert Up(t, cur.id, h) == Up(t, p, h - 1);
      ClimbFollowsParents(t, up, fuel - 1, h - 1);
      var rows := ClimbFrom(t, cur, fuel);
      assert rows == [up] + ClimbFrom(t, up, fuel - 1);
      forall i | 0 <= i < h
        ensures Up(t, cur.id, i + 1) == Some(rows[i].id)
      {
        assert Up(t, cur.id, i + 1) == Up(t, p, i);
      }
    }
  }

  /**
   * getAncestors returns exactly the parent chain of `id` up to its root:
   * row i is the (i+1)-th ancestor with its own parent_id and name, the chain
   * has as many rows as links to the root, and each depth is the previous
   * row's depth (0 for the start row) minus 1 minus the ancestor's own ofset.
   */
  lemma AncestorsAreParentChain(t: Table, id: int)
    requires Valid(t) && id in t && Rooted(t, id)
    ensures var rows := GetAncestors(t, id);
      && ReachesRoot(t, id, |rows|)
      && (forall i :: 0 <= i < |rows| ==>
            Up(t, id, i + 1) == Some(rows[i].id) && rows[i].id in t
            && rows[i].parent == t[rows[i].id].parent && rows[i].name == t[rows[i].id].name)
      && (forall i :: 0 <= i < |rows| ==>
            rows[i].depth == (if i == 0 then 0 else rows[i - 1].depth) - 1 - t[rows[i].id].ofset)
  {
    var h :| ReachesRoot(t, id, h);
    RootDistanceBound(t, id, h);
    ClimbFollowsParents(t, AncestorRow(id, t[id].parent, t[id].name, 0), |t|, h);
  }

  /** With non-negative offsets the ancestor depths strictly decrease toward the root, which ends the list. */
  lemma AncestorDepthsDecrease(t: Table, id: int)
    requires Valid(t) && id in t && Rooted(t, id) && NonNegativeOffsets(t)
    ensures var rows := GetAncestors(t, id);
      && (forall i :: 0 <= i < |rows| ==> rows[i].depth < (if i == 0 then 0 else rows[i - 1].depth))
      && (|rows| > 0 ==> IsRoot(t, rows[|rows| - 1].id))
  {
    AncestorsAreParentChain(t, id);
  }

  /** A row has no ancestors exactly when it is a root. */
  lemma RootIffNoAncestors(t: Table, n: int)
    requires Valid(t) && n in t && Rooted(t, n)
    ensures IsRoot(t, n) <==> GetAncestors(t, n) == []
  {
    AncestorsAreParentChain(t, n);
    if GetAncestors(t, n) == [] {
      assert ReachesRoot(t, n, 0);
    }
  }

  // ---------------------------------------------------------------------------
  // getDescendants

  /** A row of `children`: id, parent_id, name, ofset and the weighted depth. */
  datatype DescendantRow = DescendantRow(id: int, parent: Option<int>, name: string, ofset: int, depth: int)

  /** The seed depth: the start row's own ofset in lib/, the constant 1 in src/. */
  function SeedDepth(t: Table, id: int, v: Variant): int
    requires id in t
  {
    match v
    case Lib => t[id].ofset
    case Src => 1
  }

  /** The recursive term `JOIN children c ON op.parent_id = c.id` over the working rows. */
  function ChildRows(t: Table, work: set<DescendantRow>): set<DescendantRow>
  {
    set c, n | c in work && n in t && t[n].parent == Some(c.id) ::
      DescendantRow(n, t[n].parent, t[n].name, t[n].ofset, c.depth + 1 + t[n].ofset)
  }

  /**
   * Each row of the recursive term is a table row with its own columns whose
   * parent is a working row, one step deeper by 1 plus its own ofset; and
   * every table row whose parent is a working row comes out of it.
   */
  lemma ChildRowsAreChildren(t: Table, work: set<DescendantRow>)
    ensures forall r :: r in ChildRows(t, work) ==>
      && r.id in t && r.parent == t[r.id].parent && r.name == t[r.id].name && r.ofset == t[r.id].ofset
      && exists c :: c in work && r.parent == Some(c.id) && r.depth == c.depth + 1 + r.ofset
    ensures forall c, n :: c in work && n in t && t[n].parent == Some(c.id) ==>
      n in set r | r in ChildRows(t, work) :: r.id
  {
    forall c, n | c in work && n in t && t[n].parent == Some(c.id)
      ensures n in set r | r in ChildRows(t, work) :: r.id
    {
      var r := DescendantRow(n, t[n].parent, t[n].name, t[n].ofset, c.depth + 1 + t[n].ofset);
      assert r in ChildRows(t, work);
    }
  }

  /**
   * UNION iteration: add the new rows of each round; stop when a round adds
   * nothing.  Rows are only ever added, and every added row carries the
   * columns of a table row.
   */
  function UnionRounds(t: Table, result: set<DescendantRow>, work: set<DescendantRow>, fuel: nat): (rows: set<DescendantRow>)
    ensures result <= rows
    ensures forall r :: r in rows && r !in result ==>
      r.id in t && r.parent == t[r.id].parent && r.name == t[r.id].name && r.ofset == t[r.id].ofset
    decreases fuel
  {
    if work == {} || fuel == 0 then result
    else
      var added := ChildRows(t, work) - result;
      ChildRowsAreChildren(t, work);
      UnionRounds(t, result + added, added, fuel - 1)
  }

  /**
   * getDescendants(id): the rows below `id`, without the seed row that
   * `slice(1)` drops.  `|t|` rounds always suffice when `id` is not its own
   * ancestor (DescendantsAreLevels): no row below `id` then lies on a cycle.
   */
  function GetDescendants(t: Table, id: int, v: Variant): (rows: set<DescendantRow>)
    requires Valid(t) && (id in t ==> !IsProperAncestor(t, id, id))
    ensures id !in t ==> rows == {}
  {
    if id !in t then {}
    else
      var seed := {DescendantRow(id, t[id].parent, t[id].name, t[id].ofset, SeedDepth(t, id, v))};
      UnionRounds(t, seed, seed, |t|) - seed
  }

  function DescendantIds(rows: set<DescendantRow>): set<int>
  {
    set r | r in rows :: r.id
  }

  /** Depth of `n` counted from `k` links below the row whose depth is `s`. */
  function DepthBelow(t: Table, n: int, k: nat, s: int): int
    decreases k
  {
    if k == 0 || n !in t then s
    else match t[n].parent
      case None => s
      case Some(p) => DepthBelow(t, p, k - 1, s) + 1 + t[n].ofset
  }

  /** The rows exactly `k` links below `id`, with their weighted depths. */
  ghost function Level(t: Table, id: int, s: int, k: nat): set<DescendantRow>
  {
    set n | n in t && Up(t, n, k) == Some(id) ::
      DescendantRow(n, t[n].parent, t[n].name, t[n].ofset, DepthBelow(t, n, k, s))
  }

  ghost function UpTo(t: Table, id: int, s: int, m: nat): set<DescendantRow>
  {
    if m == 0 then Level(t, id, s, 0) else UpTo(t, id, s, m - 1) + Level(t, id, s, m)
  }

  lemma {:induction false} UpToMembers(t: Table, id: int, s: int, m: nat, r: DescendantRow)
    ensures r in UpTo(t, id, s, m) <==> exists k: nat :: k <= m && r in Level(t, id, s, k)
    decreases m
  {
    if m > 0 {
      UpToMembers(t, id, s, m - 1, r);
    }
  }

  /** One round of the recursive term maps the rows at level k onto the rows at level k + 1. */
  lemma LevelStep(t: Table, id: int, s: int, k: nat)
    requires Valid(t)
    ensures ChildRows(t, Level(t, id, s, k)) == Level(t, id, s, k + 1)
  {
    var cur, next := Level(t, id, s, k), Level(t, id, s, k + 1);
    forall r | r in ChildRows(t, cur) ensures r in next {
      var c, n :| c in cur && n in t && t[n].parent == Some(c.id)
        && r == DescendantRow(n, t[n].parent, t[n].name, t[n].ofset, c.depth + 1 + t[n].ofset);
      assert Up(t, n, k + 1) == Up(t, c.id, k);
    }
    forall r | r in next ensures r in ChildRows(t, cur) {
      var n := r.id;
      var m := t[n].parent.value;
      assert Up(t, n, k + 1) == Up(t, m, k);
      var c := DescendantRow(m, t[m].parent, t[m].name, t[m].ofset, DepthBelow(t, m, k, s));
      assert c in cur;
    }
  }

  /** A row lies at one distance below `id` only, because `id` is not its own ancestor. */
  lemma DistanceUnique(t: Table, id: int, n: int, j: nat, k: nat)
    requires !IsProperAncestor(t, id, id) && Up(t, n, j) == Some(id) && Up(t, n, k) == Some(id)
    ensures j == k
  {
    if j != k {
      var lo, hi := if j < k then j else k, if j < k then k else j;
      UpAdd(t, n, lo, hi - lo);
    }
  }

  lemma LevelsDisjoint(t: Table, id: int, s: int, j: nat, k: nat, r: DescendantRow)
    requires !IsProperAncestor(t, id, id) && r in Level(t, id, s, j) && r in Level(t, id, s, k)
    ensures j == k
  {
    DistanceUnique(t, id, r.id, j, k);
  }

  lemma LevelBound(t: Table, id: int, s: int, k: nat)
    requires id in t && !IsProperAncestor(t, id, id) && Level(t, id, s, k) != {}
    ensures k < |t|
  {
    var r :| r in Level(t, id, s, k);
    AncestorDistanceBound(t, r.id, k, id);
  }

  /** The rows a round adds to the result are exactly the next level. */
  lemma AddedRowsAreNextLevel(t: Table, id: int, s: int, j: nat)
    requires Valid(t) && !IsProperAncestor(t, id, id)
    ensures ChildRows(t, Level(t, id, s, j)) - UpTo(t, id, s, j) == Level(t, id, s, j + 1)
  {
    LevelStep(t, id, s, j);
    forall r | r in Level(t, id, s, j + 1) ensures r !in UpTo(t, id, s, j) {
      UpToMembers(t, id, s, j, r);
      if r in UpTo(t, id, s, j) {
        var k: nat :| k <= j && r in Level(t, id, s, k);
        LevelsDisjoint(t, id, s, k, j + 1, r);
      }
    }
  }

  /**
   * The UNION iteration, started on (U(j), L(j)), ends on U(m) when every
   * round turns (U(k), L(k)) into (U(k + 1), L(k + 1)) and L(m) is empty.
   */
  lemma {:induction false} RoundsFollowLevels(t: Table, L: nat -> set<DescendantRow>, U: nat -> set<DescendantRow>,
                                              j: nat, m: nat, fuel: nat)
    requires forall k: nat :: k < m ==> ChildRows(t, L(k)) - U(k) == L(k + 1) && U(k + 1) == U(k) + L(k + 1)
    requires L(m) == {} && j <= m <= j + fuel
    ensures UnionRounds(t, U(j), L(j), fuel) == U(m)
    decreases m - j
  {
    if j < m {
      RoundsFollowLevels(t, L, U, j + 1, m, fuel - 1);
      if L(j) == {} {
        assert ChildRows(t, L(j)) == {};
        assert L(j + 1) == {} && U(j + 1) == U(j);
      }
    }
  }

  /** Each of the first m rounds adds exactly the next level. */
  lemma LevelRounds(t: Table, id: int, s: int, m: nat)
    requires Valid(t) && !IsProperAncestor(t, id, id)
    ensures forall k: nat :: k < m ==>
      && ChildRows(t, Level(t, id, s, k)) - UpTo(t, id, s, k) == Level(t, id, s, k + 1)
      && UpTo(t, id, s, k + 1) == UpTo(t, id, s, k) + Level(t, id, s, k + 1)
  {
    forall k: nat | k < m
      ensures ChildRows(t, Level(t, id, s, k)) - UpTo(t, id, s, k) == Level(t, id, s, k + 1)
    {
      AddedRowsAreNextLevel(t, id, s, k);
    }
  }

  /** Every level that is not empty lies within the first |t| levels. */
  lemma UpToTableSizeHasAllLevels(t: Table, id: int, s: int, r: DescendantRow)
    requires id in t && !IsProperAncestor(t, id, id)
    ensures r in UpTo(t, id, s, |t|) <==> exists k: nat :: r in Level(t, id, s, k)
  {
    UpToMembers(t, id, s, |t|, r);
    if exists k: nat :: r in Level(t, id, s, k) {
      var k: nat :| r in Level(t, id, s, k);
      LevelBound(t, id, s, k);
    }
  }

  /** The |t| rounds of getDescendants end on the first |t| levels, less the seed. */
  lemma DescendantsAreUpTo(t: Table, id: int, v: Variant)
    requires Valid(t) && id in t && !IsProperAncestor(t, id, id)
    ensures GetDescendants(t, id, v) == UpTo(t, id, SeedDepth(t, id, v), |t|) - Level(t, id, SeedDepth(t, id, v), 0)
  {
    var s := SeedDepth(t, id, v);
    var seed := {DescendantRow(id, t[id].parent, t[id].name, t[id].ofset, s)};
    assert Level(t, id, s, 0) == seed;
    var L := (k: nat) => Level(t, id, s, k);
    var U := (k: nat) => UpTo(t, id, s, k);
    LevelRounds(t, id, s, |t|);
    if Level(t, id, s, |t|) != {} {
      LevelBound(t, id, s, |t|);
    }
    RoundsFollowLevels(t, L, U, 0, |t|, |t|);
  }

  /** getDescendants returns exactly the rows on levels 1, 2, ... below `id`. */
  lemma DescendantsAreLevels(t: Table, id: int, v: Variant)
    requires Valid(t) && id in t && !IsProperAncestor(t, id, id)
    ensures forall r :: r in GetDescendants(t, id, v) <==>
                        exists k: nat :: 1 <= k && r in Level(t, id, SeedDepth(t, id, v), k)
  {
    var s := SeedDepth(t, id, v);
    DescendantsAreUpTo(t, id, v);
    forall r ensures r in GetDescendants(t, id, v) <==> exists k: nat :: 1 <= k && r in Level(t, id, s, k) {
      UpToTableSizeHasAllLevels(t, id, s, r);
      if r in Level(t, id, s, 0) {
        forall k: nat | 1 <= k ensures r !in Level(t, id, s, k) {
          if r in Level(t, id, s, k) {
            LevelsDisjoint(t, id, s, 0, k, r);
          }
        }
      }
    }
  }

  /** getDescendants(id) returns a row for each proper descendant of `id` and for nothing else. */
  lemma DescendantsAreProperDescendants(t: Table, id: int, v: Variant)
    requires Valid(t) && id in t && !IsProperAncestor(t, id, id)
    ensures forall n :: n in DescendantIds(GetDescendants(t, id, v)) <==> n in t && IsProperAncestor(t, id, n)
  {
    var s := SeedDepth(t, id, v);
    var rows := GetDescendants(t, id, v);
    DescendantsAreLevels(t, id, v);
    forall n | n in t && IsProperAncestor(t, id, n) ensures n in DescendantIds(rows) {
      var k: nat :| 1 <= k && Up(t, n, k) == Some(id);
      var r := DescendantRow(n, t[n].parent, t[n].name, t[n].ofset, DepthBelow(t, n, k, s));
      assert r in Level(t, id, s, k);
      assert r in rows;
    }
  }

  /**
   * Each row of getDescendants(id) carries its table row's parent_id, name and
   * ofset, and no id appears twice.
   */
  lemma DescendantRowsMatchTable(t: Table, id: int, v: Variant)
    requires Valid(t) && id in t && !IsProperAncestor(t, id, id)
    ensures var rows := GetDescendants(t, id, v);
      && (forall r :: r in rows ==>
            r.id in t && r.parent == t[r.id].parent && r.name == t[r.id].name && r.ofset == t[r.id].ofset)
      && (forall r1, r2 :: r1 in rows && r2 in rows && r1.id == r2.id ==> r1 == r2)
  {
    var s := SeedDepth(t, id, v);
    var rows := GetDescendants(t, id, v);
    DescendantsAreLevels(t, id, v);
    forall r1, r2 | r1 in rows && r2 in rows && r1.id == r2.id ensures r1 == r2 {
      var j: nat :| 1 <= j && r1 in Level(t, id, s, j);
      var k: nat :| 1 <= k && r2 in Level(t, id, s, k);
      DistanceUnique(t, id, r1.id, j, k);
    }
  }

  /**
   * The depth column follows the recursive term: a child of `id` has the seed
   * depth plus 1 plus its ofset, any other row has its parent's row among the
   * results and that row's depth plus 1 plus its own ofset.
   */
  lemma DescendantDepths(t: Table, id: int, v: Variant)
    requires Valid(t) && id in t && !IsProperAncestor(t, id, id)
    ensures var rows := GetDescendants(t, id, v);
      forall r :: r in rows ==>
        (r.parent == Some(id) ==> r.depth == SeedDepth(t, id, v) + 1 + r.ofset) &&
        (r.parent != Some(id) ==>
          r.parent.Some? && exists q :: q in rows && q.id == r.parent.value && r.depth == q.depth + 1 + r.ofset)
  {
    var s := SeedDepth(t, id, v);
    var rows := GetDescendants(t, id, v);
    DescendantsAreLevels(t, id, v);
    forall r | r in rows
      ensures r.parent == Some(id) ==> r.depth == s + 1 + r.ofset
      ensures r.parent != Some(id) ==>
                r.parent.Some? && exists q :: q in rows && q.id == r.parent.value && r.depth == q.depth + 1 + r.ofset
    {
      var k: nat :| 1 <= k && r in Level(t, id, s, k);
      var p := r.parent.value;
      assert Up(t, r.id, k) == Up(t, p, k - 1);
      if r.parent == Some(id) {
        assert Up(t, r.id, 1) == Some(id);
        DistanceUnique(t, id, r.id, 1, k);
      } else {
        assert k != 1;
        var q := DescendantRow(p, t[p].parent, t[p].name, t[p].ofset, DepthBelow(t, p, k - 1, s));
        assert q in Level(t, id, s, k - 1);
        assert q in rows;
      }
    }
  }

  /**
   * The two traversals agree: `n` is among the descendants of `id` exactly
   * when `id` is among the ancestors of `n` (both queries defined, as in a
   * forest).
   */
  lemma DescendantsMirrorAncestors(t: Table, id: int, n: int, v: Variant)
    requires Valid(t) && id in t && !IsProperAncestor(t, id, id) && n in t && Rooted(t, n)
    ensures n in DescendantIds(GetDescendants(t, id, v)) <==> id in AncestorIds(GetAncestors(t, n))
  {
    DescendantsAreProperDescendants(t, id, v);
    AncestorsAreParentChain(t, n);
    var rows := GetAncestors(t, n);
    if IsProperAncestor(t, id, n) {
      var k: nat :| 1 <= k && Up(t, n, k) == Some(id);
      AncestorWithinRootDistance(t, n, |rows|, k);
      assert rows[k - 1].id == id;
    }
    if id in AncestorIds(rows) {
      var i :| 0 <= i < |rows| && rows[i].id == id;
      assert Up(t, n, i + 1) == Some(id);
    }
  }

  // ---------------------------------------------------------------------------
  // getLeaves and getRoots

  /** `SELECT parent_id ... WHERE parent_id IS NOT NULL`: the ids that some row points to. */
  function ParentIds(t: Table): set<int>
  {
    set n | n in t && t[n].parent.Some? :: t[n].parent.value
  }

  /**
   * getLeaves: the rows whose id is NOT IN the non-null parent ids, that is
   * the rows no row points to.
   */
  function GetLeaves(t: Table): (rows: set<NodeRow>)
    ensures forall r :: r in rows <==>
      r.id in t && r == RowOf(t, r.id) && forall c :: c in t ==> t[c].parent != Some(r.id)
  {
    set n | n in t && n !in ParentIds(t) :: RowOf(t, n)
  }

  /** A row of getRoots: `SELECT id, name, ofset`. */
  datatype RootRow = RootRow(id: int, name: string, ofset: int)

  /** getRoots: the rows whose parent_id IS NULL. */
  function GetRoots(t: Table): (rows: set<RootRow>)
    ensures forall r :: r in rows <==>
      IsRoot(t, r.id) && r.name == t[r.id].name && r.ofset == t[r.id].ofset
  {
    set n | n in t && t[n].parent.None? :: RootRow(n, t[n].name, t[n].ofset)
  }

  /** A child of `id` is among its descendants. */
  lemma ChildIsDescendant(t: Table, id: int, v: Variant, c: int)
    requires Valid(t) && id in t && !IsProperAncestor(t, id, id) && c in t && t[c].parent == Some(id)
    ensures c in DescendantIds(GetDescendants(t, id, v))
  {
    DescendantsAreProperDescendants(t, id, v);
    assert Up(t, c, 1) == Some(id);
  }

  /** Every descendant of `id` lies under a child of `id`. */
  lemma DescendantLiesUnderChild(t: Table, id: int, v: Variant, r: DescendantRow)
    requires Valid(t) && id in t && !IsProperAncestor(t, id, id) && r in GetDescendants(t, id, v)
    ensures exists c :: c in t && t[c].parent == Some(id)
  {
    DescendantsAreProperDescendants(t, id, v);
    assert r.id in DescendantIds(GetDescendants(t, id, v));
    ProperAncestorHasChild(t, id, r.id);
  }

  /** A row is a leaf exactly when getDescendants finds nothing below it. */
  lemma LeafIffNoDescendants(t: Table, id: int, v: Variant)
    requires Valid(t) && id in t && !IsProperAncestor(t, id, id)
    ensures RowOf(t, id) in GetLeaves(t) <==> GetDescendants(t, id, v) == {}
  {
    var rows := GetDescendants(t, id, v);
    if c :| c in t && t[c].parent == Some(id) {
      ChildIsDescendant(t, id, v, c);
    }
    if r :| r in rows {
      DescendantLiesUnderChild(t, id, v, r);
    }
  }
}
