/**
 * The bookkeeping of the Systus writer: the Systus option and the largest
 * node count the mesh needs, the lists of nodal forces and SPCs by node,
 * the rigid-bar cells generated for RBE2 and RBE3 constraints, and the load
 * numbering of an analysis.
 *
 * The writer's text output is not modelled; what it writes is determined by
 * the fields and results below.
 */
module SystusWriting {
  import opened Wrappers
  import opened Dofs
  import opened Meshes
  import opened Collections
  import opened Constraints
  import opened Loadings
  import opened SystusLists

  // ---------------------------------------------------------------------
  // Reading the mesh's cell types
  // ---------------------------------------------------------------------

  /** The mesh has a cell of the `i`-th scanned type. */
  predicate HasScanned(cells: seq<Cell>, i: nat)
    requires i < |ScanOrder|
  {
    CountCells(cells, ScanOrder[i]) > 0
  }

  /**
   * Every fixed-size cell type appears in the scan order, at position `i`
   * (that the polygonal and polyhedral types do not is ScannedTypes).
   */
  lemma ScanPosition(t: CellType) returns (i: nat)
    ensures !IsPolyType(t) ==> i < |ScanOrder| && ScanOrder[i] == t
  {
    match t
    case Point1 => i := 0;
    case Seg2 => i := 1;
    case Seg3 => i := 2;
    case Seg4 => i := 3;
    case Tri3 => i := 4;
    case Quad4 => i := 5;
    case Tri6 => i := 6;
    case Tri7 => i := 7;
    case Quad8 => i := 8;
    case Quad9 => i := 9;
    case Tetra4 => i := 10;
    case Pyra5 => i := 11;
    case Penta6 => i := 12;
    case Hexa8 => i := 13;
    case Tetra10 => i := 14;
    case Hexgp12 => i := 15;
    case Pyra13 => i := 16;
    case Penta15 => i := 17;
    case Hexa20 => i := 18;
    case Hexa27 => i := 19;
    case PolyL | Polygon | QPolyg | Polyhed => i := 0;
  }

  /** A cell that the option and the node count take into account: one of a scanned type of dimension at most 2. */
  predicate ScannedLowDimensional(c: Cell)
  {
    Dimension(c.cellType) <= 2 && !IsPolyType(c.cellType)
  }

  /**
   * Cells of the polygonal and polyhedral types are invisible to the scan:
   * a mesh made of them only has no scanned type, whatever their dimension.
   */
  lemma PolyCellsUnscanned(cells: seq<Cell>, i: nat)
    requires forall j | 0 <= j < |cells| :: IsPolyType(cells[j].cellType)
    requires i < |ScanOrder|
    ensures !HasScanned(cells, i)
  {
    ScannedTypes();
    assert ScanOrder[i] in ScanOrder;
    assert forall j | 0 <= j < |cells| :: cells[j].cellType != ScanOrder[i];
  }

  /**
   * The scan of the twenty cell types: option 3 when one of the first ten
   * types (points, segments and faces) has cells, else 4; and the largest
   * node count of a type that has cells, 0 when none has.
   */
  method ScanCellTypes(cells: seq<Cell>) returns (systusOption: int, maxNumNodes: int)
    ensures systusOption == (if exists i | 0 <= i < 10 :: HasScanned(cells, i) then 3 else 4)
    ensures systusOption == 3 <==> exists j | 0 <= j < |cells| :: ScannedLowDimensional(cells[j])
    ensures forall i | 0 <= i < 20 && HasScanned(cells, i) :: NumNodes(ScanOrder[i]) <= maxNumNodes
    ensures || (exists i | 0 <= i < 20 :: HasScanned(cells, i) && NumNodes(ScanOrder[i]) == maxNumNodes)
            || (maxNumNodes == 0 && forall i | 0 <= i < 20 :: !HasScanned(cells, i))
  {
    var hasElement, numNodes := ScanTypes(cells);
    var has1DOr2DElements := AnyBelow(hasElement, 10);
    systusOption := if has1DOr2DElements then 3 else 4;
    maxNumNodes := MaxElement(numNodes);
    ScanSummary(cells, hasElement[..], numNodes[..], has1DOr2DElements, maxNumNodes);
  }

  /** For each scanned type, whether the mesh has cells of it and, if so, its node count (else 0). */
  method ScanTypes(cells: seq<Cell>) returns (hasElement: array<bool>, numNodes: array<int>)
    ensures hasElement.Length == 20 && numNodes.Length == 20
    ensures forall j | 0 <= j < 20 :: hasElement[j] == HasScanned(cells, j)
    ensures forall j | 0 <= j < 20 :: numNodes[j] == if hasElement[j] then NumNodes(ScanOrder[j]) else 0
  {
    var cellType := ScanOrder;
    hasElement := new bool[20];
    numNodes := new int[20];
    var i := 0;
    while i < 20
      invariant 0 <= i <= 20
      invariant forall j | 0 <= j < i ::
        hasElement[j] == HasScanned(cells, j) && numNodes[j] == if hasElement[j] then NumNodes(cellType[j]) else 0
    {
      var present := CountCells(cells, cellType[i]) > 0;
      hasElement[i] := present;
      numNodes[i] := if present then NumNodes(cellType[i]) else 0;
      i := i + 1;
    }
  }

  /** Whether one of the first `n` flags is set. */
  method AnyBelow(flags: array<bool>, n: nat) returns (found: bool)
    requires n <= flags.Length
    ensures found <==> exists j | 0 <= j < n :: flags[j]
  {
    found := false;
    var i := 0;
    while i < n
      invariant 0 <= i <= n
      invariant found <==> exists j | 0 <= j < i :: flags[j]
    {
      found := flags[i] || found;
      i := i + 1;
    }
  }

  /** The scan's findings, read back as statements about the cells. */
  lemma ScanSummary(cells: seq<Cell>, has: seq<bool>, counts: seq<int>, found: bool, m: int)
    requires |has| == 20 && |counts| == 20
    requires forall j | 0 <= j < 20 :: has[j] == HasScanned(cells, j)
    requires forall j | 0 <= j < 20 :: counts[j] == if has[j] then NumNodes(ScanOrder[j]) else 0
    requires found <==> exists j | 0 <= j < 10 :: has[j]
    requires (forall j | 0 <= j < 20 :: counts[j] <= m) && exists j | 0 <= j < 20 :: counts[j] == m
    ensures (if found then 3 else 4) == (if exists i | 0 <= i < 10 :: HasScanned(cells, i) then 3 else 4)
    ensures (if found then 3 else 4) == 3 <==> exists j | 0 <= j < |cells| :: ScannedLowDimensional(cells[j])
    ensures forall i | 0 <= i < 20 && HasScanned(cells, i) :: NumNodes(ScanOrder[i]) <= m
    ensures || (exists i | 0 <= i < 20 :: HasScanned(cells, i) && NumNodes(ScanOrder[i]) == m)
            || (m == 0 && forall i | 0 <= i < 20 :: !HasScanned(cells, i))
  {
    ScanOptionSummary(cells, has, found);
    ScanMaxSummary(cells, has, counts, m);
  }

  /** The option half of the scan's findings. */
  lemma ScanOptionSummary(cells: seq<Cell>, has: seq<bool>, found: bool)
    requires |has| == 20
    requires forall j | 0 <= j < 20 :: has[j] == HasScanned(cells, j)
    requires found <==> exists j | 0 <= j < 10 :: has[j]
    ensures (if found then 3 else 4) == (if exists i | 0 <= i < 10 :: HasScanned(cells, i) then 3 else 4)
    ensures (if found then 3 else 4) == 3 <==> exists j | 0 <= j < |cells| :: ScannedLowDimensional(cells[j])
  {
    assert found <==> exists i | 0 <= i < 10 :: HasScanned(cells, i);
    LowDimensionalScan(cells, if found then 3 else 4, found);
  }

  /** The node-count half of the scan's findings. */
  lemma ScanMaxSummary(cells: seq<Cell>, has: seq<bool>, counts: seq<int>, m: int)
    requires |has| == 20 && |counts| == 20
    requires forall j | 0 <= j < 20 :: has[j] == HasScanned(cells, j)
    requires forall j | 0 <= j < 20 :: counts[j] == if has[j] then NumNodes(ScanOrder[j]) else 0
    requires (forall j | 0 <= j < 20 :: counts[j] <= m) && exists j | 0 <= j < 20 :: counts[j] == m
    ensures forall i | 0 <= i < 20 && HasScanned(cells, i) :: NumNodes(ScanOrder[i]) <= m
    ensures || (exists i | 0 <= i < 20 :: HasScanned(cells, i) && NumNodes(ScanOrder[i]) == m)
            || (m == 0 && forall i | 0 <= i < 20 :: !HasScanned(cells, i))
  {
    var j :| 0 <= j < 20 && counts[j] == m;
    if !has[j] {
      ScannedHaveNodes();
      forall i | 0 <= i < 20 ensures !HasScanned(cells, i) {
        assert counts[i] <= 0;
      }
    }
  }

  /** The largest element of a non-empty array. */
  method MaxElement(a: array<int>) returns (m: int)
    requires a.Length > 0
    ensures forall j | 0 <= j < a.Length :: a[j] <= m
    ensures exists j | 0 <= j < a.Length :: a[j] == m
  {
    m := a[0];
    ghost var where := 0;
    var i := 1;
    while i < a.Length
      invariant 1 <= i <= a.Length
      invariant forall j | 0 <= j < i :: a[j] <= m
      invariant 0 <= where < i && a[where] == m
    {
      if a[i] > m {
        m := a[i];
        where := i;
      }
      i := i + 1;
    }
  }

  /**
   * A cell of the first ten scanned types exists exactly when a cell of a
   * scanned type of dimension at most 2 does.
   */
  lemma LowDimensionalScan(cells: seq<Cell>, systusOption: int, found: bool)
    requires found <==> exists i | 0 <= i < 10 :: HasScanned(cells, i)
    requires systusOption == if found then 3 else 4
    ensures systusOption == 3 <==> exists j | 0 <= j < |cells| :: ScannedLowDimensional(cells[j])
  {
    if exists j | 0 <= j < |cells| :: ScannedLowDimensional(cells[j]) {
      var j :| 0 <= j < |cells| && ScannedLowDimensional(cells[j]);
      var i := ScanPosition(cells[j].cellType);
      FirstTenAreLowDimensional(i);
      assert HasScanned(cells, i);
    }
    if found {
      var i :| 0 <= i < 10 && HasScanned(cells, i);
      FirstTenAreLowDimensional(i);
      var j :| 0 <= j < |cells| && cells[j].cellType == ScanOrder[i];
    }
  }

  // ---------------------------------------------------------------------
  // Filling the lists
  // ---------------------------------------------------------------------

  /** A Systus list: its id and its entries, from Systus set id to member id. */
  datatype SystusList = SystusList(id: int, entries: map<int, int>)

  /**
   * The loop over the common load sets and their loadings: the table of
   * nodal forces by node and set, or None when a loading of another kind
   * than nodal force, gravity or rotation comes up.
   */
  method CollectLoads(sets: seq<WriterLoadSet>) returns (r: Option<NodeTable>)
    ensures r == FoldLoads(LoadItems(sets))
  {
    var table: NodeTable := map[];
    var i := 0;
    while i < |sets|
      invariant 0 <= i <= |sets|
      invariant FoldLoads(LoadItems(sets[..i])) == Some(table)
    {
      assert sets[..i + 1][..i] == sets[..i];
      var next := CollectSetLoads(LoadItems(sets[..i]), table, sets[i]);
      if next.None? {
        var j :| 0 <= j < |sets[i].loadings| && !SupportedLoading(sets[i].loadings[j].1);
        UnsupportedLoading(sets, i, j);
        return None;
      }
      table := next.value;
      i := i + 1;
    }
    assert sets[..i] == sets;
    r := Some(table);
  }

  /** The loop over the loadings of one load set, carrying on from the table of the sets before it. */
  method CollectSetLoads(ghost done: seq<LoadItem>, table0: NodeTable, loadSet: WriterLoadSet) returns (r: Option<NodeTable>)
    requires FoldLoads(done) == Some(table0)
    ensures r.Some? ==> r == FoldLoads(done + LoadItemsOf(loadSet))
    ensures r.None? <==> exists j | 0 <= j < |loadSet.loadings| :: !SupportedLoading(loadSet.loadings[j].1)
  {
    ghost var items := LoadItemsOf(loadSet);
    ghost var seen := done;
    assert done + items[..0] == done;
    var table := table0;
    var j := 0;
    while j < |loadSet.loadings|
      invariant 0 <= j <= |loadSet.loadings|
      invariant seen == done + items[..j]
      invariant FoldLoads(seen) == Some(table)
      invariant forall k | 0 <= k < j :: SupportedLoading(loadSet.loadings[k].1)
    {
      var (id, loading) := loadSet.loadings[j];
      ghost var it := LoadItem(loadSet.id, id, loading);
      assert items[..j + 1] == items[..j] + [it];
      assert done + items[..j + 1] == seen + [it];
      FoldLoadsSnoc(seen, it);
      ghost var before := table;
      seen := seen + [it];
      if Type(loading) == NodalForceType {
        var node := ForceNode(loading);
        table := table[node := Row(table, node)[loadSet.id := id]];
      } else if Type(loading) == GravityType || Type(loading) == RotationType {
      } else {
        return None;
      }
      assert LoadStep(before, it) == Some(table);
      j := j + 1;
    }
    assert items[..j] == items;
    r := Some(table);
  }

  /** One unsupported loading anywhere in the common load sets makes the whole fold fail. */
  lemma UnsupportedLoading(sets: seq<WriterLoadSet>, i: nat, j: nat)
    requires i < |sets| && j < |sets[i].loadings| && !SupportedLoading(sets[i].loadings[j].1)
    ensures FoldLoads(LoadItems(sets)).None?
  {
    var it := LoadItem(sets[i].id, sets[i].loadings[j].0, sets[i].loadings[j].1);
    LoadItemsMembers(sets, it);
    FoldLoadsDefined(LoadItems(sets));
  }

  /**
   * The loop over the common constraint sets, their constraints and each
   * SPC's nodes, starting from the writer's DOF table and an empty id table.
   */
  method CollectSpcs(dofs0: map<int, Dofs>, sets: seq<WriterConstraintSet>, code: Dofs,
                     setOffset: int, constraintOffset: int) returns (r: SpcTables)
    ensures r == FoldSpcs(SpcTables(dofs0, map[]), ConstraintItems(sets), code, setOffset, constraintOffset)
  {
    ghost var acc0 := SpcTables(dofs0, map[]);
    r := SpcTables(dofs0, map[]);
    var i := 0;
    while i < |sets|
      invariant 0 <= i <= |sets|
      invariant FoldSpcs(acc0, ConstraintItems(sets[..i]), code, setOffset, constraintOffset) == r
    {
      assert sets[..i + 1][..i] == sets[..i];
      r := CollectSetSpcs(acc0, ConstraintItems(sets[..i]), r, sets[i], code, setOffset, constraintOffset);
      i := i + 1;
    }
    assert sets[..i] == sets;
  }

  /** The loop over the constraints of one constraint set, carrying on from the tables of the sets before it. */
  method CollectSetSpcs(ghost acc0: SpcTables, ghost done: seq<ConstraintItem>, tables: SpcTables,
                        constraintSet: WriterConstraintSet, code: Dofs, setOffset: int, constraintOffset: int)
    returns (r: SpcTables)
    requires FoldSpcs(acc0, done, code, setOffset, constraintOffset) == tables
    ensures r == FoldSpcs(acc0, done + ConstraintItemsOf(constraintSet), code, setOffset, constraintOffset)
  {
    ghost var items := ConstraintItemsOf(constraintSet);
    ghost var seen := done;
    assert done + items[..0] == done;
    var dofs, ids := tables.dofsByNode, tables.idsByNode;
    var j := 0;
    while j < |constraintSet.constraints|
      invariant 0 <= j <= |constraintSet.constraints|
      invariant seen == done + items[..j]
      invariant FoldSpcs(acc0, seen, code, setOffset, constraintOffset) == SpcTables(dofs, ids)
    {
      var (id, constraint) := constraintSet.constraints[j];
      ghost var it := ConstraintItem(constraintSet.id, id, constraint);
      assert done + items[..j + 1] == seen + [it];
      FoldSpcsSnoc(acc0, seen, it, code, setOffset, constraintOffset);
      ghost var before := SpcTables(dofs, ids);
      seen := seen + [it];
      if constraint.Spc? {
        dofs, ids := ApplySpc(dofs, ids, constraint, code, setOffset + constraintSet.id, constraintOffset + id);
        assert SpcTables(dofs, ids) == SpcAtNodes(before, it, Constraints.NodePositions(constraint), code, setOffset, constraintOffset);
      }
      assert SpcTables(dofs, ids) == SpcStep(before, it, code, setOffset, constraintOffset);
      j := j + 1;
    }
    assert items[..j] == items;
    r := SpcTables(dofs, ids);
  }

  /** The node loop of one SPC, in ascending node order. */
  method ApplySpc(dofs0: map<int, Dofs>, ids0: NodeTable, spc: Constraint, code: Dofs, setKey: int, constraintKey: int)
    returns (dofs: map<int, Dofs>, ids: NodeTable)
    requires spc.Spc?
    ensures dofs == DofsAtNodes(dofs0, spc, Constraints.NodePositions(spc), code)
    ensures ids == IdsAtNodes(ids0, Constraints.NodePositions(spc), setKey, constraintKey)
  {
    var nodes := Sorted(Constraints.NodePositions(spc));
    dofs, ids := ApplyAtNodes(dofs0, ids0, spc, nodes, code, setKey, constraintKey);
    SortedElements(Constraints.NodePositions(spc));
  }

  /** At each node of `nodes` in turn: the SPC's id is recorded and its DOFs masked by `code` join the node's. */
  method ApplyAtNodes(dofs0: map<int, Dofs>, ids0: NodeTable, spc: Constraint, nodes: seq<int>, code: Dofs,
                      setKey: int, constraintKey: int) returns (dofs: map<int, Dofs>, ids: NodeTable)
    requires spc.Spc? && StrictlyIncreasing(nodes)
    ensures dofs == DofsAtNodes(dofs0, spc, Elements(nodes), code)
    ensures ids == IdsAtNodes(ids0, Elements(nodes), setKey, constraintKey)
  {
    dofs, ids := dofs0, ids0;
    var k := 0;
    while k < |nodes|
      invariant 0 <= k <= |nodes|
      invariant dofs == DofsAtNodes(dofs0, spc, Elements(nodes[..k]), code)
      invariant ids == IdsAtNodes(ids0, Elements(nodes[..k]), setKey, constraintKey)
    {
      var n := nodes[k];
      assert nodes[..k + 1][..k] == nodes[..k];
      IncreasingFresh(nodes, k);
      OneMoreNodeDofs(dofs0, spc, Elements(nodes[..k]), n, code);
      OneMoreNodeIds(ids0, Elements(nodes[..k]), n, setKey, constraintKey);
      ids := ids[n := Row(ids, n)[setKey := constraintKey]];
      var constrained := SpcDofsAt(spc, n);
      if n !in dofs {
        dofs := dofs[n := constrained * code];
      } else {
        dofs := dofs[n := (constrained * code) + dofs[n]];
      }
      k := k + 1;
    }
    assert nodes[..k] == nodes;
  }

  /** The lists of the rows of `t` at `nodes`, in that order, numbered from `next`. */
  function ListsInOrder(t: NodeTable, nodes: seq<int>, next: int): (r: seq<SystusList>)
    requires forall j | 0 <= j < |nodes| :: nodes[j] in t
    ensures |r| == |nodes|
  {
    if nodes == [] then []
    else
      var last := |nodes| - 1;
      ListsInOrder(t, nodes[..last], next) + [SystusList(next + last, t[nodes[last]])]
  }

  /** The list id of each of `nodes` when they are numbered in order from `next`. */
  function IdsInOrder(nodes: seq<int>, next: int): map<int, int>
  {
    if nodes == [] then map[]
    else
      var last := |nodes| - 1;
      IdsInOrder(nodes[..last], next)[nodes[last] := next + last]
  }

  /** The lists the writer pushes for `t`: one per node, in ascending node order, numbered from `next`. */
  function NumberedLists(t: NodeTable, next: int): (r: seq<SystusList>)
    ensures |r| == |t|
  {
    ListsInOrder(t, Sorted(t.Keys), next)
  }

  /** The list id the writer records for each node of `t`. */
  function NumberedIds(t: NodeTable, next: int): map<int, int>
  {
    IdsInOrder(Sorted(t.Keys), next)
  }

  /**
   * `pushed` holds one list per node of `t` and `ids` gives each node its
   * list's id: the ids run consecutively from `next` in ascending node
   * order, and the list with a node's id holds that node's row.
   */
  predicate Numbered(t: NodeTable, next: int, pushed: seq<SystusList>, ids: map<int, int>)
  {
    && |pushed| == |t| && ids.Keys == t.Keys
    && (forall n | n in t :: next <= ids[n] < next + |t| && pushed[ids[n] - next] == SystusList(ids[n], t[n]))
    && (forall a, b | a in t && b in t && a < b :: ids[a] < ids[b])
  }

  /** One list per node of `t`, in ascending node order, numbered from `next`. */
  method NumberLists(t: NodeTable, next: int) returns (pushed: seq<SystusList>, ids: map<int, int>)
    ensures pushed == NumberedLists(t, next) && ids == NumberedIds(t, next)
  {
    var nodes := Sorted(t.Keys);
    pushed, ids := NumberInOrder(t, nodes, next);
  }

  /** One list per node of `t`, taking the nodes in the order of `nodes`. */
  method NumberInOrder(t: NodeTable, nodes: seq<int>, next: int) returns (pushed: seq<SystusList>, ids: map<int, int>)
    requires forall j | 0 <= j < |nodes| :: nodes[j] in t
    ensures pushed == ListsInOrder(t, nodes, next) && ids == IdsInOrder(nodes, next)
  {
    pushed := [];
    ids := map[];
    var k := 0;
    while k < |nodes|
      invariant 0 <= k <= |nodes|
      invariant pushed == ListsInOrder(t, nodes[..k], next) && ids == IdsInOrder(nodes[..k], next)
    {
      var n := nodes[k];
      assert nodes[..k + 1][..k] == nodes[..k];
      var list := SystusList(next + k, t[n]);
      pushed := pushed + [list];
      ids := ids[n := list.id];
      k := k + 1;
    }
    assert nodes[..k] == nodes;
  }

  /** The lists the writer pushes for a table are numbered as `Numbered` says. */
  lemma NumberedListsNumbered(t: NodeTable, next: int)
    ensures Numbered(t, next, NumberedLists(t, next), NumberedIds(t, next))
  {
    var nodes := Sorted(t.Keys);
    SortedElements(t.Keys);
    ElementsMembers(nodes);
    ListsInOrderAt(t, nodes, next);
    IdsInOrderAt(nodes, next);
    NumberedByPositions(t, nodes, next, ListsInOrder(t, nodes, next), IdsInOrder(nodes, next));
  }

  /** The `j`-th list in order holds the row of the `j`-th node under id `next + j`. */
  lemma {:induction false} ListsInOrderAt(t: NodeTable, nodes: seq<int>, next: int)
    requires forall j | 0 <= j < |nodes| :: nodes[j] in t
    ensures |ListsInOrder(t, nodes, next)| == |nodes|
    ensures forall j | 0 <= j < |nodes| :: ListsInOrder(t, nodes, next)[j] == SystusList(next + j, t[nodes[j]])
  {
    if nodes != [] {
      ListsInOrderAt(t, nodes[..|nodes| - 1], next);
    }
  }

  /** Numbering increasing nodes in order gives the `j`-th of them the id `next + j`, and no other node an id. */
  lemma {:induction false} IdsInOrderAt(nodes: seq<int>, next: int)
    requires StrictlyIncreasing(nodes)
    ensures IdsInOrder(nodes, next).Keys == Elements(nodes)
    ensures forall j | 0 <= j < |nodes| :: nodes[j] in IdsInOrder(nodes, next) && IdsInOrder(nodes, next)[nodes[j]] == next + j
  {
    if nodes != [] {
      var last := |nodes| - 1;
      IdsInOrderAt(nodes[..last], next);
      IncreasingFresh(nodes, last);
      ElementsMembers(nodes[..last]);
      forall j | 0 <= j < last ensures nodes[j] != nodes[last] {
      }
    }
  }

  /** Numbering the nodes by their positions in an increasing sequence of them numbers them in ascending order. */
  lemma NumberedByPositions(t: NodeTable, nodes: seq<int>, next: int, pushed: seq<SystusList>, ids: map<int, int>)
    requires StrictlyIncreasing(nodes) && |nodes| == |t| && |pushed| == |nodes| && ids.Keys == t.Keys
    requires forall x | x in t :: x in nodes
    requires forall j | 0 <= j < |nodes| :: nodes[j] in t && ids[nodes[j]] == next + j
    requires forall j | 0 <= j < |nodes| :: pushed[j] == SystusList(next + j, t[nodes[j]])
    ensures Numbered(t, next, pushed, ids)
  {
    forall n | n in t ensures next <= ids[n] < next + |t| && pushed[ids[n] - next] == SystusList(ids[n], t[n]) {
      var j :| 0 <= j < |nodes| && nodes[j] == n;
    }
    PositionsAscending(t, nodes, next, ids);
  }

  lemma PositionsAscending(t: NodeTable, nodes: seq<int>, next: int, ids: map<int, int>)
    requires StrictlyIncreasing(nodes) && ids.Keys == t.Keys
    requires forall x | x in t :: x in nodes
    requires forall j | 0 <= j < |nodes| :: nodes[j] in t && ids[nodes[j]] == next + j
    ensures forall a, b | a in t && b in t && a < b :: ids[a] < ids[b]
  {
    forall a, b | a in t && b in t && a < b ensures ids[a] < ids[b] {
      var i :| 0 <= i < |nodes| && nodes[i] == a;
      var j :| 0 <= j < |nodes| && nodes[j] == b;
      assert i < j;
    }
  }

  /** The writer exceptions filling the lists can raise: "Loading type not supported" and "systusOption not supported". */
  datatype WriterError = LoadingTypeNotSupported | OptionNotSupported

  /** The DOF code of each Systus option: all DOFs for 3, translations for 4, none for any other. */
  function DofCode(systusOption: int): Option<Dofs>
  {
    if systusOption == 3 then Some(AllDofs)
    else if systusOption == 4 then Some(Translations)
    else None
  }

  /** The tables filling the lists writes: the lists, the id counter, and the list id and DOFs by node. */
  datatype ListTables = ListTables(lists: seq<SystusList>, nextListId: int, loadingIds: map<int, int>,
                                   constraintIds: map<int, int>, dofsByNode: map<int, Dofs>)

  /** What a filling step ends with: its outcome and the tables as they are then. */
  datatype Filled = Filled(outcome: Outcome<WriterError>, tables: ListTables)

  /** The tables after the load lists of `t` are pushed. */
  function LoadsPushed(s: ListTables, t: NodeTable): ListTables
  {
    ListTables(s.lists + NumberedLists(t, s.nextListId), s.nextListId + |t|,
               s.loadingIds + NumberedIds(t, s.nextListId), s.constraintIds, s.dofsByNode)
  }

  /** The load half of filling the lists. */
  function LoadListsFilled(s: ListTables, loadSets: seq<WriterLoadSet>): Filled
  {
    match FoldLoads(LoadItems(loadSets))
    case None => Filled(Fail(LoadingTypeNotSupported), s)
    case Some(t) => Filled(Pass, LoadsPushed(s, t))
  }

  /** The load half when every loading is supported, with the load table named: tables with these fields. */
  lemma LoadListsPass(s: ListTables, loadSets: seq<WriterLoadSet>, t: NodeTable, r: ListTables)
    requires FoldLoads(LoadItems(loadSets)) == Some(t)
    requires r.lists == s.lists + NumberedLists(t, s.nextListId) && r.nextListId == s.nextListId + |t|
    requires r.loadingIds == s.loadingIds + NumberedIds(t, s.nextListId)
    requires r.constraintIds == s.constraintIds && r.dofsByNode == s.dofsByNode
    ensures LoadListsFilled(s, loadSets) == Filled(Pass, r)
  {
  }

  /** The constraint half of filling the lists. */
  function ConstraintListsFilled(s: ListTables, constraintSets: seq<WriterConstraintSet>, systusOption: int,
                                 loadSetOffset: int, loadingOffset: int): Filled
  {
    match DofCode(systusOption)
    case None => Filled(Fail(OptionNotSupported), s)
    case Some(code) =>
      Filled(Pass, SpcsPushed(s, FoldSpcs(SpcTables(s.dofsByNode, map[]), ConstraintItems(constraintSets), code,
                                          loadSetOffset, loadingOffset)))
  }

  /** The tables after the constraint lists of the SPC tables are pushed and their DOFs by node taken over. */
  function SpcsPushed(s: ListTables, spcs: SpcTables): ListTables
  {
    var t := spcs.idsByNode;
    ListTables(s.lists + NumberedLists(t, s.nextListId), s.nextListId + |t|,
               s.loadingIds, s.constraintIds + NumberedIds(t, s.nextListId), spcs.dofsByNode)
  }

  /** The constraint half when the option has a DOF code, with the SPC tables named: tables with these fields. */
  lemma ConstraintListsPass(s: ListTables, constraintSets: seq<WriterConstraintSet>, systusOption: int,
                            loadSetOffset: int, loadingOffset: int, spcs: SpcTables, r: ListTables)
    requires DofCode(systusOption).Some?
    requires spcs == FoldSpcs(SpcTables(s.dofsByNode, map[]), ConstraintItems(constraintSets),
                              DofCode(systusOption).value, loadSetOffset, loadingOffset)
    requires r.lists == s.lists + NumberedLists(spcs.idsByNode, s.nextListId)
    requires r.nextListId == s.nextListId + |spcs.idsByNode| && r.loadingIds == s.loadingIds
    requires r.constraintIds == s.constraintIds + NumberedIds(spcs.idsByNode, s.nextListId)
    requires r.dofsByNode == spcs.dofsByNode
    ensures ConstraintListsFilled(s, constraintSets, systusOption, loadSetOffset, loadingOffset) == Filled(Pass, r)
  {
  }

  /** Filling the lists: the load half, then, when it passes, the constraint half. */
  function ListsFilled(s: ListTables, loadSets: seq<WriterLoadSet>, constraintSets: seq<WriterConstraintSet>,
                       systusOption: int, loadSetOffset: int, loadingOffset: int): Filled
  {
    var loaded := LoadListsFilled(s, loadSets);
    if loaded.outcome.Fail? then loaded
    else ConstraintListsFilled(loaded.tables, constraintSets, systusOption, loadSetOffset, loadingOffset)
  }

  /**
   * The load half fails exactly when a loading is not supported, with
   * nothing changed. Otherwise the old lists are followed by one list per
   * loaded node, numbered in ascending node order from the id counter,
   * and only the lists, the counter and the load list ids change.
   */
  lemma LoadListsFilledSpec(s: ListTables, loadSets: seq<WriterLoadSet>)
    ensures var r := LoadListsFilled(s, loadSets);
      && (r.outcome.Fail? <==> FoldLoads(LoadItems(loadSets)).None?)
      && (r.outcome.Fail? ==> r.outcome == Fail(LoadingTypeNotSupported) && r.tables == s)
      && (r.outcome.Pass? ==>
            var t := FoldLoads(LoadItems(loadSets)).value;
            && |r.tables.lists| == |s.lists| + |t| && r.tables.lists[..|s.lists|] == s.lists
            && Numbered(t, s.nextListId, r.tables.lists[|s.lists|..], NumberedIds(t, s.nextListId))
            && r.tables.nextListId == s.nextListId + |t|
            && r.tables.loadingIds == s.loadingIds + NumberedIds(t, s.nextListId)
            && r.tables.constraintIds == s.constraintIds && r.tables.dofsByNode == s.dofsByNode)
  {
    if FoldLoads(LoadItems(loadSets)).Some? {
      var t := FoldLoads(LoadItems(loadSets)).value;
      NumberedListsNumbered(t, s.nextListId);
      Splits(s.lists, NumberedLists(t, s.nextListId));
    }
  }

  /**
   * The constraint half fails exactly when the option has no DOF code, with
   * nothing changed. Otherwise the DOFs by node are those the SPCs give,
   * the old lists are followed by one list per constrained node, numbered
   * in ascending node order from the id counter, and the load list ids
   * stay as they were.
   */
  lemma ConstraintListsFilledSpec(s: ListTables, constraintSets: seq<WriterConstraintSet>, systusOption: int,
                                  loadSetOffset: int, loadingOffset: int)
    ensures var r := ConstraintListsFilled(s, constraintSets, systusOption, loadSetOffset, loadingOffset);
      && (r.outcome.Fail? <==> DofCode(systusOption).None?)
      && (r.outcome.Fail? ==> r.outcome == Fail(OptionNotSupported) && r.tables == s)
      && (r.outcome.Pass? ==>
            var spcs := FoldSpcs(SpcTables(s.dofsByNode, map[]), ConstraintItems(constraintSets),
                                 DofCode(systusOption).value, loadSetOffset, loadingOffset);
            && r.tables.dofsByNode == spcs.dofsByNode
            && |r.tables.lists| == |s.lists| + |spcs.idsByNode| && r.tables.lists[..|s.lists|] == s.lists
            && Numbered(spcs.idsByNode, s.nextListId, r.tables.lists[|s.lists|..], NumberedIds(spcs.idsByNode, s.nextListId))
            && r.tables.nextListId == s.nextListId + |spcs.idsByNode|
            && r.tables.constraintIds == s.constraintIds + NumberedIds(spcs.idsByNode, s.nextListId)
            && r.tables.loadingIds == s.loadingIds)
  {
    if DofCode(systusOption).Some? {
      var spcs := FoldSpcs(SpcTables(s.dofsByNode, map[]), ConstraintItems(constraintSets),
                           DofCode(systusOption).value, loadSetOffset, loadingOffset);
      NumberedListsNumbered(spcs.idsByNode, s.nextListId);
      Splits(s.lists, NumberedLists(spcs.idsByNode, s.nextListId));
    }
  }

  /** A concatenation splits back into its two parts. */
  lemma Splits<T>(a: seq<T>, b: seq<T>)
    ensures (a + b)[..|a|] == a && (a + b)[|a|..] == b
  {
  }

  /**
   * Filling the lists fails exactly when a loading is not supported (with
   * nothing changed) or the option has no DOF code (with the load half
   * done and the constraint tables untouched).
   */
  lemma ListsFilledOutcome(s: ListTables, loadSets: seq<WriterLoadSet>, constraintSets: seq<WriterConstraintSet>,
                           systusOption: int, loadSetOffset: int, loadingOffset: int)
    ensures var r := ListsFilled(s, loadSets, constraintSets, systusOption, loadSetOffset, loadingOffset);
      && (r.outcome.Fail? <==> FoldLoads(LoadItems(loadSets)).None? || DofCode(systusOption).None?)
      && (FoldLoads(LoadItems(loadSets)).None? ==> r == Filled(Fail(LoadingTypeNotSupported), s))
      && (FoldLoads(LoadItems(loadSets)).Some? && DofCode(systusOption).None? ==>
            r == Filled(Fail(OptionNotSupported), LoadListsFilled(s, loadSets).tables))
  {
    LoadListsFilledSpec(s, loadSets);
    var loaded := LoadListsFilled(s, loadSets);
    if loaded.outcome.Pass? {
      ConstraintListsFilledSpec(loaded.tables, constraintSets, systusOption, loadSetOffset, loadingOffset);
    }
  }

  /**
   * When every loading is supported and the option has a DOF code, filling
   * the lists passes: the old lists are followed by the load lists,
   * numbered from the id counter, and then by the constraint lists,
   * numbered from where the load lists stop (`NumberedListsNumbered` says
   * what such a numbering holds).
   */
  lemma ListsFilledSpec(s: ListTables, loadSets: seq<WriterLoadSet>, constraintSets: seq<WriterConstraintSet>,
                        systusOption: int, loadSetOffset: int, loadingOffset: int, t: NodeTable, code: Dofs)
    requires FoldLoads(LoadItems(loadSets)) == Some(t) && DofCode(systusOption) == Some(code)
    ensures var r := ListsFilled(s, loadSets, constraintSets, systusOption, loadSetOffset, loadingOffset);
      var u := FoldSpcs(SpcTables(s.dofsByNode, map[]), ConstraintItems(constraintSets), code,
                        loadSetOffset, loadingOffset).idsByNode;
      && r.outcome.Pass?
      && r.tables.lists == s.lists + NumberedLists(t, s.nextListId) + NumberedLists(u, s.nextListId + |t|)
      && r.tables.nextListId == s.nextListId + |t| + |u|
  {
    var tl := LoadsPushed(s, t);
    var spcs := FoldSpcs(SpcTables(s.dofsByNode, map[]), ConstraintItems(constraintSets), code,
                         loadSetOffset, loadingOffset);
    assert tl.dofsByNode == s.dofsByNode;
    var r := SpcsPushed(tl, spcs);
    ListsFilledPass(s, loadSets, constraintSets, systusOption, loadSetOffset, loadingOffset, tl, r);
    calc {
      r.lists;
      tl.lists + NumberedLists(spcs.idsByNode, tl.nextListId);
      { assert tl.nextListId == s.nextListId + |t|; }
      (s.lists + NumberedLists(t, s.nextListId)) + NumberedLists(spcs.idsByNode, s.nextListId + |t|);
    }
  }

  /** Both halves passing, with their tables named: filling the lists passes with the second half's tables. */
  lemma ListsFilledPass(s: ListTables, loadSets: seq<WriterLoadSet>, constraintSets: seq<WriterConstraintSet>,
                        systusOption: int, loadSetOffset: int, loadingOffset: int, tl: ListTables, r: ListTables)
    requires LoadListsFilled(s, loadSets) == Filled(Pass, tl)
    requires ConstraintListsFilled(tl, constraintSets, systusOption, loadSetOffset, loadingOffset) == Filled(Pass, r)
    ensures ListsFilled(s, loadSets, constraintSets, systusOption, loadSetOffset, loadingOffset) == Filled(Pass, r)
  {
  }

  // ---------------------------------------------------------------------
  // Rigid bars
  // ---------------------------------------------------------------------

  /** The ids `lo` up to but excluding `lo + n`. */
  function IdRange(lo: int, n: nat): (r: set<int>)
    ensures forall c :: c in r <==> lo <= c < lo + n
  {
    if n == 0 then {} else IdRange(lo, n - 1) + {lo + n - 1}
  }

  /** The positions `lo` up to but excluding `lo + n`, in order. */
  function Consecutive(lo: nat, n: nat): seq<nat>
  {
    seq(n, k => lo + k)
  }

  /** `s` followed by the positions `lo` up to but excluding `lo + n`, pushed one at a time. */
  function WithConsecutive(s: seq<nat>, lo: nat, n: nat): (r: seq<nat>)
    ensures |r| == |s| + n
  {
    if n == 0 then s else WithConsecutive(s, lo, n - 1) + [lo + n - 1]
  }

  lemma {:induction false} WithConsecutiveAppends(s: seq<nat>, lo: nat, n: nat)
    ensures WithConsecutive(s, lo, n) == s + Consecutive(lo, n)
  {
    if n > 0 {
      WithConsecutiveAppends(s, lo, n - 1);
      assert s + Consecutive(lo, n) == (s + Consecutive(lo, n - 1)) + [lo + n - 1];
    }
  }

  /** The nodes of an RBE2 bar: master, slave, the master's rotation node under option 4, then the slave's Lagrange node. */
  function Rbe2NodeIds(systusOption: int, master: int, slave: int, masterRot: int, slaveLagr: int): seq<int>
  {
    if systusOption == 4 then [master, slave, masterRot, slaveLagr] else [master, slave, slaveLagr]
  }

  /** RBE2 bars are 3-node segments under option 3 and 4-node segments under option 4. */
  function Rbe2CellType(systusOption: int): CellType
  {
    if systusOption == 4 then Seg4 else Seg3
  }

  /** A copy of a node's coordinates and displacement system under a new id. */
  function CopyOf(n: Node, id: int): Node
  {
    Node(id, n.x, n.y, n.z, n.displacementCS)
  }

  /** The nodes at the given positions, in order. */
  function NodesAt(nodes: seq<Node>, positions: seq<int>): (r: seq<Node>)
    requires forall k | 0 <= k < |positions| :: 0 <= positions[k] < |nodes|
    ensures |r| == |positions| && forall k | 0 <= k < |positions| :: r[k] == nodes[positions[k]]
  {
    seq(|positions|, k requires 0 <= k < |positions| => nodes[positions[k]])
  }

  /** The rotation node an RBE2 adds for its master under option 4: a copy of the master. */
  function MasterRotation(systusOption: int, master: Node, id: int): (r: seq<Node>)
    ensures |r| == RotationCount(systusOption)
  {
    if systusOption == 4 then [CopyOf(master, id)] else []
  }

  /** The number of rotation nodes an RBE2 adds: one under option 4, none otherwise. */
  function RotationCount(systusOption: int): nat
  {
    if systusOption == 4 then 1 else 0
  }

  /** The id an RBE2 bar gives its master's rotation node: the new node's under option 4, 0 otherwise. */
  function MasterRotationId(systusOption: int, nextNodeId: int): int
  {
    if systusOption == 4 then nextNodeId else 0
  }

  /** The Lagrange nodes of an RBE2: a copy of each slave, numbered from `firstId`. */
  function LagrangeNodes(slaves: seq<Node>, firstId: int): seq<Node>
  {
    seq(|slaves|, k requires 0 <= k < |slaves| => CopyOf(slaves[k], firstId + k))
  }

  /** `nodes` followed by the Lagrange nodes of an RBE2, added one slave at a time. */
  function WithLagrangeNodes(nodes: seq<Node>, slaves: seq<Node>, firstId: int): (r: seq<Node>)
    ensures |r| == |nodes| + |slaves|
  {
    if slaves == [] then nodes
    else
      var last := |slaves| - 1;
      WithLagrangeNodes(nodes, slaves[..last], firstId) + [CopyOf(slaves[last], firstId + last)]
  }

  lemma {:induction false} WithLagrangeNodesAppends(nodes: seq<Node>, slaves: seq<Node>, firstId: int)
    ensures WithLagrangeNodes(nodes, slaves, firstId) == nodes + LagrangeNodes(slaves, firstId)
  {
    if slaves != [] {
      var last := |slaves| - 1;
      WithLagrangeNodesAppends(nodes, slaves[..last], firstId);
      assert nodes + LagrangeNodes(slaves, firstId)
          == (nodes + LagrangeNodes(slaves[..last], firstId)) + [CopyOf(slaves[last], firstId + last)];
    }
  }

  /**
   * The bar of an RBE2 for one slave: it joins the master, the slave, under
   * option 4 the master's rotation node, and the slave's Lagrange node.
   */
  function Rbe2Bar(systusOption: int, masterId: int, slave: Node, cellId: int, masterRotId: int, lagrangeId: int): Cell
  {
    Cell(cellId, Rbe2CellType(systusOption), Rbe2NodeIds(systusOption, masterId, slave.id, masterRotId, lagrangeId), [], UnavailableElem)
  }

  /** The bars of an RBE2, one per slave, numbered from `firstCellId`. */
  function Rbe2Bars(systusOption: int, masterId: int, slaves: seq<Node>, firstCellId: int,
                    masterRotId: int, firstLagrangeId: int): (r: seq<Cell>)
    ensures |r| == |slaves|
    ensures forall k | 0 <= k < |r| ::
      r[k].cellType == Rbe2CellType(systusOption) && |r[k].nodeIds| == Rbe2NodeCount(systusOption)
  {
    seq(|slaves|, k requires 0 <= k < |slaves| =>
      Rbe2Bar(systusOption, masterId, slaves[k], firstCellId + k, masterRotId, firstLagrangeId + k))
  }

  /** `cells` followed by the bars of an RBE2, added one slave at a time. */
  function WithRbe2Bars(cells: seq<Cell>, systusOption: int, masterId: int, slaves: seq<Node>, firstCellId: int,
                        masterRotId: int, firstLagrangeId: int): (r: seq<Cell>)
    ensures |r| == |cells| + |slaves|
  {
    if slaves == [] then cells
    else
      var last := |slaves| - 1;
      WithRbe2Bars(cells, systusOption, masterId, slaves[..last], firstCellId, masterRotId, firstLagrangeId)
        + [Rbe2Bar(systusOption, masterId, slaves[last], firstCellId + last, masterRotId, firstLagrangeId + last)]
  }

  lemma {:induction false} WithRbe2BarsAppends(cells: seq<Cell>, systusOption: int, masterId: int, slaves: seq<Node>,
                                               firstCellId: int, masterRotId: int, firstLagrangeId: int)
    ensures WithRbe2Bars(cells, systusOption, masterId, slaves, firstCellId, masterRotId, firstLagrangeId)
         == cells + Rbe2Bars(systusOption, masterId, slaves, firstCellId, masterRotId, firstLagrangeId)
  {
    if slaves != [] {
      var last := |slaves| - 1;
      WithRbe2BarsAppends(cells, systusOption, masterId, slaves[..last], firstCellId, masterRotId, firstLagrangeId);
      assert cells + Rbe2Bars(systusOption, masterId, slaves, firstCellId, masterRotId, firstLagrangeId)
          == (cells + Rbe2Bars(systusOption, masterId, slaves[..last], firstCellId, masterRotId, firstLagrangeId))
             + [Rbe2Bar(systusOption, masterId, slaves[last], firstCellId + last, masterRotId, firstLagrangeId + last)];
    }
  }

  /** The bar of an RBE3 for one slave: a 2-node segment from the master to the slave. */
  function Rbe3Bar(masterId: int, slave: Node, cellId: int): Cell
  {
    Cell(cellId, Seg2, [masterId, slave.id], [], UnavailableElem)
  }

  /** The bars of an RBE3, one per slave, numbered from `firstCellId`. */
  function Rbe3Bars(masterId: int, slaves: seq<Node>, firstCellId: int): (r: seq<Cell>)
    ensures |r| == |slaves|
    ensures forall k | 0 <= k < |r| :: r[k].cellType == Seg2 && |r[k].nodeIds| == 2 && r[k].nodeIds[0] == masterId
  {
    seq(|slaves|, k requires 0 <= k < |slaves| => Rbe3Bar(masterId, slaves[k], firstCellId + k))
  }

  /** `cells` followed by the bars of an RBE3, added one slave at a time. */
  function WithRbe3Bars(cells: seq<Cell>, masterId: int, slaves: seq<Node>, firstCellId: int): (r: seq<Cell>)
    ensures |r| == |cells| + |slaves|
  {
    if slaves == [] then cells
    else
      var last := |slaves| - 1;
      WithRbe3Bars(cells, masterId, slaves[..last], firstCellId) + [Rbe3Bar(masterId, slaves[last], firstCellId + last)]
  }

  lemma {:induction false} WithRbe3BarsAppends(cells: seq<Cell>, masterId: int, slaves: seq<Node>, firstCellId: int)
    ensures WithRbe3Bars(cells, masterId, slaves, firstCellId) == cells + Rbe3Bars(masterId, slaves, firstCellId)
  {
    if slaves != [] {
      var last := |slaves| - 1;
      WithRbe3BarsAppends(cells, masterId, slaves[..last], firstCellId);
      assert cells + Rbe3Bars(masterId, slaves, firstCellId)
          == (cells + Rbe3Bars(masterId, slaves[..last], firstCellId)) + [Rbe3Bar(masterId, slaves[last], firstCellId + last)];
    }
  }

  /** A rigid body names its master and slaves by positions below `nodeCount`. */
  predicate RigidFits(c: Constraint, nodeCount: nat)
  {
    (c.Rigid? || c.Rbe3?) ==> 0 <= c.master < nodeCount && forall s | s in c.slaves :: 0 <= s < nodeCount
  }

  /** Every rigid body of a set's constraints names positions of existing nodes. */
  predicate SetPositionsExist(constraints: seq<(int, Constraint)>, nodeCount: nat)
  {
    forall j | 0 <= j < |constraints| :: RigidFits(constraints[j].1, nodeCount)
  }

  /** Every rigid body of the sets names its master and slaves by positions of existing nodes. */
  predicate RigidPositionsExist(sets: seq<WriterConstraintSet>, nodeCount: nat)
  {
    forall i | 0 <= i < |sets| :: SetPositionsExist(sets[i].constraints, nodeCount)
  }

  /** Positions of existing nodes stay so as nodes are added. */
  lemma PositionsGrow(constraints: seq<(int, Constraint)>, nodeCount: nat, more: nat)
    requires SetPositionsExist(constraints, nodeCount) && nodeCount <= more
    ensures SetPositionsExist(constraints, more)
  {
    forall j | 0 <= j < |constraints| ensures RigidFits(constraints[j].1, more) {
      assert RigidFits(constraints[j].1, nodeCount);
    }
  }

  /** A master and an order of slaves that are all positions among `nodeCount` nodes. */
  predicate OrderFits(master: int, order: seq<int>, nodeCount: nat)
  {
    0 <= master < nodeCount && forall k | 0 <= k < |order| :: 0 <= order[k] < nodeCount
  }

  /** The master and the slaves, in ascending order, of a rigid body that fits are positions of existing nodes. */
  lemma RigidPositionsAt(c: Constraint, nodeCount: nat)
    requires RigidFits(c, nodeCount) && (c.Rigid? || c.Rbe3?)
    ensures var order := Sorted(c.slaves);
      0 <= c.master < nodeCount && |order| == |c.slaves| && forall k | 0 <= k < |order| :: 0 <= order[k] < nodeCount
  {
    var order := Sorted(c.slaves);
    forall k | 0 <= k < |order| ensures 0 <= order[k] < nodeCount {
      assert order[k] in c.slaves;
    }
  }

  /** The mesh fields and the bar positions that generating the rigid bars reads and writes. */
  datatype RbeState = RbeState(nodes: seq<Node>, nextNodeId: int, cells: seq<Cell>, nextCellId: int,
                               groups: seq<CellGroup>, bars2: seq<nat>, bars3: seq<nat>)

  /**
   * The state after the bars of one RBE2: its group under the next group
   * index, under option 4 a rotation node copying the master, a Lagrange
   * node copying each slave, and one bar per slave, in the order given,
   * whose position joins the RBE2 bar positions and whose id joins the group.
   */
  function Rbe2Added(st: RbeState, systusOption: int, constraintId: int, master: nat, order: seq<int>): (r: RbeState)
    requires master < |st.nodes| && forall k | 0 <= k < |order| :: 0 <= order[k] < |st.nodes|
    ensures |st.nodes| <= |r.nodes|
  {
    RbeState(
      Rbe2Nodes(st.nodes, st.nextNodeId, systusOption, master, order),
      st.nextNodeId + RotationCount(systusOption) + |order|,
      Rbe2Cells(st.nodes, st.nextNodeId, st.cells, st.nextCellId, systusOption, master, order),
      st.nextCellId + |order|,
      st.groups + [CellGroup(Rbe2Group(constraintId), IdRange(st.nextCellId, |order|))],
      st.bars2 + Consecutive(|st.cells|, |order|),
      st.bars3)
  }

  /** The nodes after the bars of one RBE2: the master's rotation node, then one Lagrange node per slave. */
  function Rbe2Nodes(nodes: seq<Node>, nextNodeId: int, systusOption: int, master: nat, order: seq<int>): (r: seq<Node>)
    requires master < |nodes| && forall k | 0 <= k < |order| :: 0 <= order[k] < |nodes|
    ensures |r| == |nodes| + RotationCount(systusOption) + |order| && r[..|nodes|] == nodes
  {
    nodes + MasterRotation(systusOption, nodes[master], nextNodeId)
      + LagrangeNodes(NodesAt(nodes, order), nextNodeId + RotationCount(systusOption))
  }

  /** The cells after the bars of one RBE2: one bar per slave, from the next cell id on. */
  function Rbe2Cells(nodes: seq<Node>, nextNodeId: int, cells: seq<Cell>, nextCellId: int, systusOption: int,
                     master: nat, order: seq<int>): (r: seq<Cell>)
    requires master < |nodes| && forall k | 0 <= k < |order| :: 0 <= order[k] < |nodes|
    ensures |r| == |cells| + |order| && r[..|cells|] == cells
  {
    cells + Rbe2Bars(systusOption, nodes[master].id, NodesAt(nodes, order), nextCellId,
                     MasterRotationId(systusOption, nextNodeId), nextNodeId + RotationCount(systusOption))
  }

  /** The nodes and cells that adding an RBE2's rotation node and then its slaves one by one leaves are those of `Rbe2Added`. */
  lemma Rbe2FieldsFrom(systusOption: int, nodes0: seq<Node>, nextNode0: int, cells0: seq<Cell>, nextCell0: int,
                       master: nat, order: seq<int>, nodes: seq<Node>, cells: seq<Cell>)
    requires master < |nodes0| && forall k | 0 <= k < |order| :: 0 <= order[k] < |nodes0|
    requires nodes == WithLagrangeNodes(nodes0 + MasterRotation(systusOption, nodes0[master], nextNode0),
                                        NodesAt(nodes0, order), nextNode0 + RotationCount(systusOption))
    requires cells == WithRbe2Bars(cells0, systusOption, nodes0[master].id, NodesAt(nodes0, order), nextCell0,
                                   MasterRotationId(systusOption, nextNode0), nextNode0 + RotationCount(systusOption))
    ensures nodes == Rbe2Nodes(nodes0, nextNode0, systusOption, master, order)
    ensures cells == Rbe2Cells(nodes0, nextNode0, cells0, nextCell0, systusOption, master, order)
  {
    WithLagrangeNodesAppends(nodes0 + MasterRotation(systusOption, nodes0[master], nextNode0),
                             NodesAt(nodes0, order), nextNode0 + RotationCount(systusOption));
    WithRbe2BarsAppends(cells0, systusOption, nodes0[master].id, NodesAt(nodes0, order), nextCell0,
                        MasterRotationId(systusOption, nextNode0), nextNode0 + RotationCount(systusOption));
  }

  /** A state whose fields are those `Rbe2Added` gives is its result. */
  lemma Rbe2AddedFrom(st: RbeState, r: RbeState, systusOption: int, constraintId: int, master: nat, order: seq<int>)
    requires master < |st.nodes| && forall k | 0 <= k < |order| :: 0 <= order[k] < |st.nodes|
    requires r.nodes == Rbe2Nodes(st.nodes, st.nextNodeId, systusOption, master, order)
    requires r.nextNodeId == st.nextNodeId + RotationCount(systusOption) + |order|
    requires r.cells == Rbe2Cells(st.nodes, st.nextNodeId, st.cells, st.nextCellId, systusOption, master, order)
    requires r.nextCellId == st.nextCellId + |order|
    requires r.groups == st.groups + [CellGroup(Rbe2Group(constraintId), IdRange(st.nextCellId, |order|))]
    requires r.bars2 == st.bars2 + Consecutive(|st.cells|, |order|) && r.bars3 == st.bars3
    ensures r == Rbe2Added(st, systusOption, constraintId, master, order)
  {
    Rbe2AddedFields(st, r, systusOption, constraintId, master, order);
    var w := Rbe2Added(st, systusOption, constraintId, master, order);
    assert r.bars3 == w.bars3;
    assert r.nextNodeId == w.nextNodeId && r.nextCellId == w.nextCellId;
  }

  lemma Rbe2AddedFields(st: RbeState, r: RbeState, systusOption: int, constraintId: int, master: nat, order: seq<int>)
    requires master < |st.nodes| && forall k | 0 <= k < |order| :: 0 <= order[k] < |st.nodes|
    requires r.nodes == Rbe2Nodes(st.nodes, st.nextNodeId, systusOption, master, order)
    requires r.nextNodeId == st.nextNodeId + RotationCount(systusOption) + |order|
    requires r.cells == Rbe2Cells(st.nodes, st.nextNodeId, st.cells, st.nextCellId, systusOption, master, order)
    requires r.nextCellId == st.nextCellId + |order|
    requires r.groups == st.groups + [CellGroup(Rbe2Group(constraintId), IdRange(st.nextCellId, |order|))]
    requires r.bars2 == st.bars2 + Consecutive(|st.cells|, |order|) && r.bars3 == st.bars3
    ensures r.nodes == Rbe2Added(st, systusOption, constraintId, master, order).nodes
    ensures r.cells == Rbe2Added(st, systusOption, constraintId, master, order).cells
    ensures r.groups == Rbe2Added(st, systusOption, constraintId, master, order).groups
    ensures r.bars2 == Rbe2Added(st, systusOption, constraintId, master, order).bars2
  {
  }

  /**
   * The state after the bars of one RBE3: its group, and one 2-node bar from
   * the master to each slave, in the order given; no node is added.
   */
  function Rbe3Added(st: RbeState, constraintId: int, master: nat, order: seq<int>): (r: RbeState)
    requires master < |st.nodes| && forall k | 0 <= k < |order| :: 0 <= order[k] < |st.nodes|
    ensures r.nodes == st.nodes
  {
    RbeState(
      st.nodes,
      st.nextNodeId,
      st.cells + Rbe3Bars(st.nodes[master].id, NodesAt(st.nodes, order), st.nextCellId),
      st.nextCellId + |order|,
      st.groups + [CellGroup(Rbe3Group(constraintId), IdRange(st.nextCellId, |order|))],
      st.bars2,
      st.bars3 + Consecutive(|st.cells|, |order|))
  }

  /** The RBE2 pass over a set's constraints: each rigid constraint in turn, its slaves in ascending position order. */
  function Rbe2Pass(st: RbeState, systusOption: int, constraints: seq<(int, Constraint)>): (r: RbeState)
    requires SetPositionsExist(constraints, |st.nodes|)
    ensures |st.nodes| <= |r.nodes|
  {
    if constraints == [] then st
    else
      var last := |constraints| - 1;
      var before := Rbe2Pass(st, systusOption, constraints[..last]);
      var c := constraints[last];
      if c.1.Rigid? then
        PositionsGrow(constraints, |st.nodes|, |before.nodes|);
        RigidPositionsAt(c.1, |before.nodes|);
        Rbe2Added(before, systusOption, c.0, c.1.master, Sorted(c.1.slaves))
      else
        before
  }

  /** One more constraint extends the RBE2 pass by that constraint's bars when it is rigid, and leaves it alone otherwise. */
  lemma Rbe2PassSnoc(st: RbeState, systusOption: int, constraints: seq<(int, Constraint)>, j: nat)
    requires j < |constraints| && SetPositionsExist(constraints[..j + 1], |st.nodes|)
    ensures SetPositionsExist(constraints[..j], |st.nodes|)
    ensures !constraints[j].1.Rigid? ==>
      Rbe2Pass(st, systusOption, constraints[..j + 1]) == Rbe2Pass(st, systusOption, constraints[..j])
    ensures constraints[j].1.Rigid? ==>
      OrderFits(constraints[j].1.master, Sorted(constraints[j].1.slaves), |Rbe2Pass(st, systusOption, constraints[..j]).nodes|) &&
      Rbe2Pass(st, systusOption, constraints[..j + 1]) ==
        Rbe2Added(Rbe2Pass(st, systusOption, constraints[..j]), systusOption, constraints[j].0,
                  constraints[j].1.master, Sorted(constraints[j].1.slaves))
  {
    assert constraints[..j + 1][..j] == constraints[..j];
    if constraints[j].1.Rigid? {
      var before := Rbe2Pass(st, systusOption, constraints[..j]);
      PositionsGrow(constraints[..j + 1], |st.nodes|, |before.nodes|);
      RigidPositionsAt(constraints[j].1, |before.nodes|);
    }
  }

  /** A state that follows the RBE2 pass over some constraints by the bars of the next one is the pass over one more. */
  lemma Rbe2PassStep(st: RbeState, systusOption: int, constraints: seq<(int, Constraint)>, j: nat, before: RbeState, r: RbeState)
    requires j < |constraints| && SetPositionsExist(constraints[..j + 1], |st.nodes|)
    requires SetPositionsExist(constraints[..j], |st.nodes|) && before == Rbe2Pass(st, systusOption, constraints[..j])
    requires !constraints[j].1.Rigid? ==> r == before
    requires constraints[j].1.Rigid? ==>
      var c := constraints[j].1; var order := Sorted(c.slaves);
      OrderFits(c.master, order, |before.nodes|) &&
      r.nodes == Rbe2Nodes(before.nodes, before.nextNodeId, systusOption, c.master, order) &&
      r.nextNodeId == before.nextNodeId + RotationCount(systusOption) + |order| &&
      r.cells == Rbe2Cells(before.nodes, before.nextNodeId, before.cells, before.nextCellId, systusOption, c.master, order) &&
      r.nextCellId == before.nextCellId + |order| &&
      r.groups == before.groups + [CellGroup(Rbe2Group(constraints[j].0), IdRange(before.nextCellId, |order|))] &&
      r.bars2 == before.bars2 + Consecutive(|before.cells|, |order|) && r.bars3 == before.bars3
    ensures r == Rbe2Pass(st, systusOption, constraints[..j + 1])
  {
    Rbe2PassSnoc(st, systusOption, constraints, j);
    if constraints[j].1.Rigid? {
      var c := constraints[j];
      Rbe2AddedFrom(before, r, systusOption, c.0, c.1.master, Sorted(c.1.slaves));
    }
  }

  /** The RBE3 pass over a set's constraints: each RBE3 in turn, its slaves in ascending position order. */
  function Rbe3Pass(st: RbeState, constraints: seq<(int, Constraint)>): (r: RbeState)
    requires SetPositionsExist(constraints, |st.nodes|)
    ensures r.nodes == st.nodes
  {
    if constraints == [] then st
    else
      var last := |constraints| - 1;
      var before := Rbe3Pass(st, constraints[..last]);
      var c := constraints[last];
      if c.1.Rbe3? then
        RigidPositionsAt(c.1, |before.nodes|);
        Rbe3Added(before, c.0, c.1.master, Sorted(c.1.slaves))
      else
        before
  }

  /** The bars of one constraint set: the RBE2 pass, then the RBE3 pass. */
  function SetRbes(st: RbeState, systusOption: int, constraints: seq<(int, Constraint)>): (r: RbeState)
    requires SetPositionsExist(constraints, |st.nodes|)
    ensures |st.nodes| <= |r.nodes|
  {
    var after2 := Rbe2Pass(st, systusOption, constraints);
    PositionsGrow(constraints, |st.nodes|, |after2.nodes|);
    Rbe3Pass(after2, constraints)
  }

  /** The bars of all the common constraint sets, one set after another. */
  function AllRbes(st: RbeState, systusOption: int, sets: seq<WriterConstraintSet>): (r: RbeState)
    requires RigidPositionsExist(sets, |st.nodes|)
    ensures |st.nodes| <= |r.nodes|
  {
    if sets == [] then st
    else
      var last := |sets| - 1;
      var before := AllRbes(st, systusOption, sets[..last]);
      PositionsGrow(sets[last].constraints, |st.nodes|, |before.nodes|);
      SetRbes(before, systusOption, sets[last].constraints)
  }

  /** The number of bars the rigid bodies of one kind generate: one per slave. */
  function BarCount(sets: seq<WriterConstraintSet>, rbe2: bool): nat
  {
    if sets == [] then 0
    else BarCount(sets[..|sets| - 1], rbe2) + SetBarCount(sets[|sets| - 1].constraints, rbe2)
  }

  function SetBarCount(constraints: seq<(int, Constraint)>, rbe2: bool): nat
  {
    if constraints == [] then 0
    else SetBarCount(constraints[..|constraints| - 1], rbe2) + BarsOf(constraints[|constraints| - 1].1, rbe2)
  }

  /** The bars of the kind asked for one constraint generates: one per slave of a rigid body of that kind. */
  function BarsOf(c: Constraint, rbe2: bool): nat
  {
    if rbe2 && c.Rigid? then |c.slaves| else if !rbe2 && c.Rbe3? then |c.slaves| else 0
  }

  /** The number of nodes of an RBE2 bar: 3 under option 3, 4 under option 4. */
  function Rbe2NodeCount(systusOption: int): nat
  {
    if systusOption == 4 then 4 else 3
  }

  /** Every position of `positions` from `from` on is that of a cell of type `t` with `nodeCount` nodes. */
  predicate BarsShaped(cells: seq<Cell>, positions: seq<nat>, from: nat, t: CellType, nodeCount: nat)
  {
    forall j | from <= j < |positions| ::
      positions[j] < |cells| && cells[positions[j]].cellType == t && |cells[positions[j]].nodeIds| == nodeCount
  }

  /**
   * Appending bars of a shape to the cells, and their positions to the
   * positions, keeps the positions shaped; positions of another kind stay
   * shaped as the cells grow.
   */
  lemma ShapedAfterAppend(cells: seq<Cell>, bars: seq<Cell>, positions: seq<nat>, from: nat, t: CellType, nodeCount: nat)
    requires BarsShaped(cells, positions, from, t, nodeCount)
    requires forall k | 0 <= k < |bars| :: bars[k].cellType == t && |bars[k].nodeIds| == nodeCount
    ensures BarsShaped(cells + bars, positions + Consecutive(|cells|, |bars|), from, t, nodeCount)
  {
    var cells' := cells + bars;
    var positions' := positions + Consecutive(|cells|, |bars|);
    forall j | from <= j < |positions'|
      ensures positions'[j] < |cells'| && cells'[positions'[j]].cellType == t && |cells'[positions'[j]].nodeIds| == nodeCount
    {
      if j >= |positions| {
        assert positions'[j] == |cells| + (j - |positions|);
      }
    }
  }

  lemma ShapedAfterGrowth(cells: seq<Cell>, more: seq<Cell>, positions: seq<nat>, from: nat, t: CellType, nodeCount: nat)
    requires BarsShaped(cells, positions, from, t, nodeCount)
    ensures BarsShaped(cells + more, positions, from, t, nodeCount)
  {
    forall j | from <= j < |positions| ensures (cells + more)[positions[j]] == cells[positions[j]] {
    }
  }

  /**
   * The mesh and the bar positions, compared with `start`: nodes, cells and
   * groups keep what they had, `n2` RBE2 bars and `n3` RBE3 bars have been
   * added, and every added position is that of a bar of its kind's shape.
   */
  predicate Generated(systusOption: int, start: RbeState, n2: nat, n3: nat, nodes: seq<Node>, cells: seq<Cell>,
                      groups: seq<CellGroup>, bars2: seq<nat>, bars3: seq<nat>)
  {
    && |start.nodes| <= |nodes| && nodes[..|start.nodes|] == start.nodes
    && |start.cells| <= |cells| && cells[..|start.cells|] == start.cells
    && |start.groups| <= |groups| && groups[..|start.groups|] == start.groups
    && |bars2| == |start.bars2| + n2 && bars2[..|start.bars2|] == start.bars2
    && |bars3| == |start.bars3| + n3 && bars3[..|start.bars3|] == start.bars3
    && BarsShaped(cells, bars2, |start.bars2|, Rbe2CellType(systusOption), Rbe2NodeCount(systusOption))
    && BarsShaped(cells, bars3, |start.bars3|, Seg2, 2)
  }

  /** Adding the bars of one RBE2 with its rotation and Lagrange nodes and its group keeps the progress. */
  lemma Rbe2Step(systusOption: int, start: RbeState, n2: nat, n3: nat, nodes: seq<Node>, cells: seq<Cell>,
                 groups: seq<CellGroup>, bars2: seq<nat>, bars3: seq<nat>,
                 rot: seq<Node>, lagrange: seq<Node>, bars: seq<Cell>, group: CellGroup)
    requires Generated(systusOption, start, n2, n3, nodes, cells, groups, bars2, bars3)
    requires forall k | 0 <= k < |bars| :: bars[k].cellType == Rbe2CellType(systusOption) && |bars[k].nodeIds| == Rbe2NodeCount(systusOption)
    ensures Generated(systusOption, start, n2 + |bars|, n3, nodes + rot + lagrange, cells + bars, groups + [group],
                      bars2 + Consecutive(|cells|, |bars|), bars3)
  {
    PrefixKept(start.nodes, nodes, rot);
    PrefixKept(start.nodes, nodes + rot, lagrange);
    PrefixKept(start.groups, groups, [group]);
    PrefixKept(start.cells, cells, bars);
    PrefixKept(start.bars2, bars2, Consecutive(|cells|, |bars|));
    ShapedAfterAppend(cells, bars, bars2, |start.bars2|, Rbe2CellType(systusOption), Rbe2NodeCount(systusOption));
    ShapedAfterGrowth(cells, bars, bars3, |start.bars3|, Seg2, 2);
  }

  /** Adding the bars of one RBE3 and its group keeps the progress. */
  lemma Rbe3Step(systusOption: int, start: RbeState, n2: nat, n3: nat, nodes: seq<Node>, cells: seq<Cell>,
                 groups: seq<CellGroup>, bars2: seq<nat>, bars3: seq<nat>, bars: seq<Cell>, group: CellGroup)
    requires Generated(systusOption, start, n2, n3, nodes, cells, groups, bars2, bars3)
    requires forall k | 0 <= k < |bars| :: bars[k].cellType == Seg2 && |bars[k].nodeIds| == 2
    ensures Generated(systusOption, start, n2, n3 + |bars|, nodes, cells + bars, groups + [group],
                      bars2, bars3 + Consecutive(|cells|, |bars|))
  {
    PrefixKept(start.groups, groups, [group]);
    PrefixKept(start.cells, cells, bars);
    PrefixKept(start.bars3, bars3, Consecutive(|cells|, |bars|));
    ShapedAfterAppend(cells, bars, bars3, |start.bars3|, Seg2, 2);
    ShapedAfterGrowth(cells, bars, bars2, |start.bars2|, Rbe2CellType(systusOption), Rbe2NodeCount(systusOption));
  }

  /** The RBE2 pass adds, after what `start` had, one bar of the RBE2 shape per slave of each rigid constraint. */
  lemma {:induction false} Rbe2PassGenerated(systusOption: int, start: RbeState, n2: nat, n3: nat, st: RbeState,
                                             constraints: seq<(int, Constraint)>)
    requires SetPositionsExist(constraints, |st.nodes|)
    requires Generated(systusOption, start, n2, n3, st.nodes, st.cells, st.groups, st.bars2, st.bars3)
    ensures var r := Rbe2Pass(st, systusOption, constraints);
      Generated(systusOption, start, n2 + SetBarCount(constraints, true), n3, r.nodes, r.cells, r.groups, r.bars2, r.bars3)
  {
    if constraints != [] {
      var last := |constraints| - 1;
      assert constraints[..last + 1] == constraints;
      Rbe2PassSnoc(st, systusOption, constraints, last);
      Rbe2PassGenerated(systusOption, start, n2, n3, st, constraints[..last]);
      var before := Rbe2Pass(st, systusOption, constraints[..last]);
      var c := constraints[last];
      if c.1.Rigid? {
        Rbe2AddedGenerated(systusOption, start, n2 + SetBarCount(constraints[..last], true), n3,
                           before, c.0, c.1.master, Sorted(c.1.slaves));
      }
    }
  }

  /** The bars of one RBE2 keep the progress, with one more bar of the RBE2 shape per slave. */
  lemma Rbe2AddedGenerated(systusOption: int, start: RbeState, n2: nat, n3: nat, st: RbeState,
                           constraintId: int, master: nat, order: seq<int>)
    requires master < |st.nodes| && forall k | 0 <= k < |order| :: 0 <= order[k] < |st.nodes|
    requires Generated(systusOption, start, n2, n3, st.nodes, st.cells, st.groups, st.bars2, st.bars3)
    ensures var r := Rbe2Added(st, systusOption, constraintId, master, order);
      Generated(systusOption, start, n2 + |order|, n3, r.nodes, r.cells, r.groups, r.bars2, r.bars3)
  {
    var rot := MasterRotation(systusOption, st.nodes[master], st.nextNodeId);
    var slaves := NodesAt(st.nodes, order);
    Rbe2Step(systusOption, start, n2, n3, st.nodes, st.cells, st.groups, st.bars2, st.bars3,
             rot, LagrangeNodes(slaves, st.nextNodeId + |rot|),
             Rbe2Bars(systusOption, st.nodes[master].id, slaves, st.nextCellId,
                      MasterRotationId(systusOption, st.nextNodeId), st.nextNodeId + |rot|),
             CellGroup(Rbe2Group(constraintId), IdRange(st.nextCellId, |order|)));
  }

  /** The RBE3 pass adds, after what `start` had, one 2-node bar per slave of each RBE3. */
  lemma {:induction false} Rbe3PassGenerated(systusOption: int, start: RbeState, n2: nat, n3: nat, st: RbeState,
                                             constraints: seq<(int, Constraint)>)
    requires SetPositionsExist(constraints, |st.nodes|)
    requires Generated(systusOption, start, n2, n3, st.nodes, st.cells, st.groups, st.bars2, st.bars3)
    ensures var r := Rbe3Pass(st, constraints);
      Generated(systusOption, start, n2, n3 + SetBarCount(constraints, false), r.nodes, r.cells, r.groups, r.bars2, r.bars3)
  {
    if constraints != [] {
      var last := |constraints| - 1;
      Rbe3PassGenerated(systusOption, start, n2, n3, st, constraints[..last]);
      var before := Rbe3Pass(st, constraints[..last]);
      var c := constraints[last];
      if c.1.Rbe3? {
        RigidPositionsAt(c.1, |before.nodes|);
        var order := Sorted(c.1.slaves);
        Rbe3Step(systusOption, start, n2, n3 + SetBarCount(constraints[..last], false),
                 before.nodes, before.cells, before.groups, before.bars2, before.bars3,
                 Rbe3Bars(before.nodes[c.1.master].id, NodesAt(before.nodes, order), before.nextCellId),
                 CellGroup(Rbe3Group(c.0), IdRange(before.nextCellId, |order|)));
      }
    }
  }

  /**
   * Generating the bars of all the sets keeps what the mesh and the bar
   * positions had and adds one bar per slave of each rigid body, of the
   * shape of its kind.
   */
  lemma {:induction false} AllRbesGenerated(systusOption: int, st: RbeState, sets: seq<WriterConstraintSet>)
    requires RigidPositionsExist(sets, |st.nodes|)
    ensures var r := AllRbes(st, systusOption, sets);
      Generated(systusOption, st, BarCount(sets, true), BarCount(sets, false), r.nodes, r.cells, r.groups, r.bars2, r.bars3)
  {
    if sets == [] {
      assert st.nodes[..|st.nodes|] == st.nodes && st.cells[..|st.cells|] == st.cells;
      assert st.groups[..|st.groups|] == st.groups;
      assert st.bars2[..|st.bars2|] == st.bars2 && st.bars3[..|st.bars3|] == st.bars3;
    } else {
      var last := |sets| - 1;
      AllRbesGenerated(systusOption, st, sets[..last]);
      var before := AllRbes(st, systusOption, sets[..last]);
      var constraints := sets[last].constraints;
      PositionsGrow(constraints, |st.nodes|, |before.nodes|);
      Rbe2PassGenerated(systusOption, st, BarCount(sets[..last], true), BarCount(sets[..last], false), before, constraints);
      var after2 := Rbe2Pass(before, systusOption, constraints);
      PositionsGrow(constraints, |before.nodes|, |after2.nodes|);
      Rbe3PassGenerated(systusOption, st, BarCount(sets, true), BarCount(sets[..last], false), after2, constraints);
    }
  }

  /** Whatever follows a sequence keeps its prefixes. */
  lemma PrefixKept<T>(a: seq<T>, b: seq<T>, c: seq<T>)
    requires |a| <= |b| && b[..|a|] == a
    ensures |a| <= |b + c| && (b + c)[..|a|] == a
  {
    assert (b + c)[..|a|] == b[..|a|];
  }

  // ---------------------------------------------------------------------
  // The writer
  // ---------------------------------------------------------------------

  /**
   * The fields the writer fills before writing. List ids are handed out by
   * `nextListId`, which stands for the list class's own id allocator.
   */
  class SystusWriter {
    var systusOption: int
    var maxNumNodes: int
    var nbNodes: int
    var lists: seq<SystusList>
    var nextListId: int
    var loadingListIdByNodePosition: map<int, int>
    var constraintListIdByNodePosition: map<int, int>
    var constraintByNodePosition: map<int, Dofs>
    var rbe2RbarPositions: seq<nat>
    var rbe3RbarPositions: seq<nat>

    constructor (firstListId: int)
      ensures lists == [] && nextListId == firstListId
      ensures loadingListIdByNodePosition == map[] && constraintListIdByNodePosition == map[]
      ensures constraintByNodePosition == map[]
      ensures rbe2RbarPositions == [] && rbe3RbarPositions == []
    {
      systusOption := 0;
      maxNumNodes := 0;
      nbNodes := 0;
      lists := [];
      nextListId := firstListId;
      loadingListIdByNodePosition := map[];
      constraintListIdByNodePosition := map[];
      constraintByNodePosition := map[];
      rbe2RbarPositions := [];
      rbe3RbarPositions := [];
    }

    /** Reads the option, the largest node count and the node count off the mesh. */
    method GetSystusInformations(mesh: Mesh)
      modifies this`systusOption, this`maxNumNodes, this`nbNodes
      ensures systusOption == (if exists i | 0 <= i < 10 :: HasScanned(mesh.cells, i) then 3 else 4)
      ensures systusOption == 3 <==> exists j | 0 <= j < |mesh.cells| :: ScannedLowDimensional(mesh.cells[j])
      ensures forall i | 0 <= i < 20 && HasScanned(mesh.cells, i) :: NumNodes(ScanOrder[i]) <= maxNumNodes
      ensures || (exists i | 0 <= i < 20 :: HasScanned(mesh.cells, i) && NumNodes(ScanOrder[i]) == maxNumNodes)
              || (maxNumNodes == 0 && forall i | 0 <= i < 20 :: !HasScanned(mesh.cells, i))
      ensures nbNodes == |mesh.nodes|
    {
      systusOption, maxNumNodes := ScanCellTypes(mesh.cells);
      nbNodes := |mesh.nodes|;
    }

    /** Moves a numbered batch of lists in after the lists already there; the id counter moves past them. */
    method PushLists(t: NodeTable) returns (pushed: seq<SystusList>, ids: map<int, int>)
      modifies this`lists, this`nextListId
      ensures pushed == NumberedLists(t, old(nextListId)) && ids == NumberedIds(t, old(nextListId))
      ensures lists == old(lists) + pushed && nextListId == old(nextListId) + |t|
    {
      pushed, ids := NumberLists(t, nextListId);
      NumberedListsNumbered(t, nextListId);
      lists := lists + pushed;
      nextListId := nextListId + |pushed|;
    }

    /** The tables filling the lists writes, as they stand. */
    function Tables(): ListTables
      reads this
    {
      ListTables(lists, nextListId, loadingListIdByNodePosition, constraintListIdByNodePosition, constraintByNodePosition)
    }

    /**
     * Fills the lists: the outcome and the new tables are those of
     * `ListsFilled` from the old tables, whose properties `ListsFilledSpec`
     * states. The offsets stand for the last automatic load set and loading
     * ids the writer adds to constraint set and constraint ids.
     */
    method FillLists(loadSets: seq<WriterLoadSet>, constraintSets: seq<WriterConstraintSet>,
                     loadSetOffset: int, loadingOffset: int) returns (outcome: Outcome<WriterError>)
      modifies this`lists, this`nextListId, this`loadingListIdByNodePosition,
               this`constraintListIdByNodePosition, this`constraintByNodePosition
      ensures Filled(outcome, Tables()) == ListsFilled(old(Tables()), loadSets, constraintSets, systusOption, loadSetOffset, loadingOffset)
    {
      outcome := FillLoadLists(loadSets);
      if outcome.Fail? {
        return;
      }
      outcome := FillConstraintLists(constraintSets, loadSetOffset, loadingOffset);
    }

    /** The load half of filling the lists: one list per node a nodal force of the common load sets is applied to. */
    method FillLoadLists(loadSets: seq<WriterLoadSet>) returns (outcome: Outcome<WriterError>)
      modifies this`lists, this`nextListId, this`loadingListIdByNodePosition
      ensures Filled(outcome, Tables()) == LoadListsFilled(old(Tables()), loadSets)
    {
      var loads := CollectLoads(loadSets);
      if loads.None? {
        return Fail(LoadingTypeNotSupported);
      }
      ghost var s := Tables();
      var pushed, ids := PushLists(loads.value);
      loadingListIdByNodePosition := loadingListIdByNodePosition + ids;
      outcome := Pass;
      LoadListsPass(s, loadSets, loads.value, Tables());
    }

    /**
     * The constraint half of filling the lists: an unsupported option fails
     * with nothing changed; otherwise the DOFs by node and one list per node
     * an SPC constrains.
     */
    method FillConstraintLists(constraintSets: seq<WriterConstraintSet>, loadSetOffset: int, loadingOffset: int)
      returns (outcome: Outcome<WriterError>)
      modifies this`lists, this`nextListId, this`constraintListIdByNodePosition, this`constraintByNodePosition
      ensures Filled(outcome, Tables()) == ConstraintListsFilled(old(Tables()), constraintSets, systusOption, loadSetOffset, loadingOffset)
    {
      var dofCode := DofCode(systusOption);
      if dofCode.None? {
        return Fail(OptionNotSupported);
      }
      ghost var s := Tables();
      var spcs := CollectSpcs(constraintByNodePosition, constraintSets, dofCode.value, loadSetOffset, loadingOffset);
      constraintByNodePosition := spcs.dofsByNode;
      var pushed, ids := PushLists(spcs.idsByNode);
      constraintListIdByNodePosition := constraintListIdByNodePosition + ids;
      outcome := Pass;
      ConstraintListsPass(s, constraintSets, systusOption, loadSetOffset, loadingOffset, spcs, Tables());
    }

    /**
     * The bars of one RBE2: a group named after the constraint, under
     * option 4 a rotation node copying the master, and for each slave, in
     * the order given, a Lagrange node copying the slave and one bar from
     * the master through the rotation node to the Lagrange node.
     */
    method AddRbe2Bars(mesh: Mesh, constraintId: int, master: nat, order: seq<int>)
      requires systusOption == 3 || systusOption == 4
      requires master < |mesh.nodes| && forall k | 0 <= k < |order| :: 0 <= order[k] < |mesh.nodes|
      modifies this`rbe2RbarPositions, mesh
      ensures mesh.nodes == Rbe2Nodes(old(mesh.nodes), old(mesh.nextNodeId), systusOption, master, order)
      ensures mesh.nextNodeId == old(mesh.nextNodeId) + RotationCount(systusOption) + |order|
      ensures mesh.cells == Rbe2Cells(old(mesh.nodes), old(mesh.nextNodeId), old(mesh.cells), old(mesh.nextCellId),
                                      systusOption, master, order)
      ensures mesh.nextCellId == old(mesh.nextCellId) + |order|
      ensures rbe2RbarPositions == old(rbe2RbarPositions) + Consecutive(|old(mesh.cells)|, |order|)
      ensures mesh.groups == old(mesh.groups) + [CellGroup(Rbe2Group(constraintId), IdRange(old(mesh.nextCellId), |order|))]
    {
      ghost var nodes0 := mesh.nodes;
      ghost var cells0 := mesh.cells;
      ghost var bars0 := rbe2RbarPositions;
      ghost var nextNode0 := mesh.nextNodeId;
      ghost var nextCell0 := mesh.nextCellId;
      ghost var rot := MasterRotation(systusOption, nodes0[master], nextNode0);
      var group := mesh.CreateCellGroup(Rbe2Group(constraintId));
      ghost var groups1 := mesh.groups;
      var masterNode := mesh.nodes[master];
      var masterRotId := AddMasterRotation(mesh, masterNode);
      ghost var nodes1 := mesh.nodes;
      ghost var slaves := NodesAt(nodes0, order);
      AddRbe2Slaves(mesh, group, masterNode.id, masterRotId, order, nodes0, nodes1, cells0, bars0, groups1,
                    nextNode0 + |rot|, nextCell0);
      Rbe2FieldsFrom(systusOption, nodes0, nextNode0, cells0, nextCell0, master, order, mesh.nodes, mesh.cells);
      WithConsecutiveAppends(bars0, |cells0|, |order|);
    }

    /** Under option 4, the rotation node of an RBE2's master: a copy of the master under the next node id. */
    method AddMasterRotation(mesh: Mesh, masterNode: Node) returns (masterRotId: int)
      modifies mesh
      ensures mesh.nodes == old(mesh.nodes) + MasterRotation(systusOption, masterNode, old(mesh.nextNodeId))
      ensures mesh.nextNodeId == old(mesh.nextNodeId) + |MasterRotation(systusOption, masterNode, old(mesh.nextNodeId))|
      ensures masterRotId == MasterRotationId(systusOption, old(mesh.nextNodeId))
      ensures mesh.cells == old(mesh.cells) && mesh.groups == old(mesh.groups) && mesh.nextCellId == old(mesh.nextCellId)
    {
      masterRotId := 0;
      if systusOption == 4 {
        var masterRotPosition := mesh.AddNode(masterNode.x, masterNode.y, masterNode.z, masterNode.displacementCS);
        masterRotId := mesh.nodes[masterRotPosition].id;
      }
    }

    /** The slaves of one RBE2, in the order given, once its group and master rotation node exist. */
    method AddRbe2Slaves(mesh: Mesh, group: nat, masterId: int, masterRotId: int, order: seq<int>,
                         ghost nodes0: seq<Node>, ghost nodes1: seq<Node>, ghost cells0: seq<Cell>, ghost bars0: seq<nat>,
                         ghost groups1: seq<CellGroup>, ghost firstLagrangeId: int, ghost nextCell0: int)
      requires systusOption == 3 || systusOption == 4
      requires forall k | 0 <= k < |order| :: 0 <= order[k] < |nodes0|
      requires |nodes0| <= |mesh.nodes| && forall p | 0 <= p < |nodes0| :: mesh.nodes[p] == nodes0[p]
      requires Rbe2Progress(mesh, masterId, masterRotId, group, nodes1, cells0, bars0, groups1, firstLagrangeId, nextCell0, [])
      modifies this`rbe2RbarPositions, mesh
      ensures Rbe2Progress(mesh, masterId, masterRotId, group, nodes1, cells0, bars0, groups1,
                           firstLagrangeId, nextCell0, NodesAt(nodes0, order))
    {
      ghost var slaves := NodesAt(nodes0, order);
      var k := 0;
      while k < |order|
        invariant 0 <= k <= |order|
        invariant Rbe2Progress(mesh, masterId, masterRotId, group, nodes1, cells0, bars0, groups1,
                               firstLagrangeId, nextCell0, slaves[..k])
        invariant |nodes0| <= |mesh.nodes| && forall p | 0 <= p < |nodes0| :: mesh.nodes[p] == nodes0[p]
      {
        AddRbe2Bar(mesh, group, masterId, masterRotId, order[k], nodes1, cells0, bars0, groups1,
                   firstLagrangeId, nextCell0, slaves, k);
        k := k + 1;
      }
      assert slaves[..k] == slaves;
    }

    /** The mesh and the bar positions once the RBE2 bars of `slaves`, a prefix of the slaves, are added. */
    ghost predicate Rbe2Progress(mesh: Mesh, masterId: int, masterRotId: int, group: nat,
                                 nodes1: seq<Node>, cells0: seq<Cell>, bars0: seq<nat>, groups1: seq<CellGroup>,
                                 firstLagrangeId: int, nextCell0: int, slaves: seq<Node>)
      reads this, mesh
    {
      && mesh.nodes == WithLagrangeNodes(nodes1, slaves, firstLagrangeId)
      && mesh.nextNodeId == firstLagrangeId + |slaves|
      && mesh.cells == WithRbe2Bars(cells0, systusOption, masterId, slaves, nextCell0, masterRotId, firstLagrangeId)
      && mesh.nextCellId == nextCell0 + |slaves|
      && rbe2RbarPositions == WithConsecutive(bars0, |cells0|, |slaves|)
      && group < |groups1|
      && mesh.groups == groups1[group := CellGroup(groups1[group].name, IdRange(nextCell0, |slaves|))]
    }

    /** One slave of an RBE2: its Lagrange node, its bar, the bar's position and its place in the group. */
    method AddRbe2Bar(mesh: Mesh, group: nat, masterId: int, masterRotId: int, slavePosition: nat,
                      ghost nodes1: seq<Node>, ghost cells0: seq<Cell>, ghost bars0: seq<nat>, ghost groups1: seq<CellGroup>,
                      ghost firstLagrangeId: int, ghost nextCell0: int, ghost slaves: seq<Node>, ghost k: nat)
      requires systusOption == 3 || systusOption == 4
      requires k < |slaves| && slavePosition < |mesh.nodes| && mesh.nodes[slavePosition] == slaves[k]
      requires Rbe2Progress(mesh, masterId, masterRotId, group, nodes1, cells0, bars0, groups1,
                            firstLagrangeId, nextCell0, slaves[..k])
      modifies this`rbe2RbarPositions, mesh
      ensures Rbe2Progress(mesh, masterId, masterRotId, group, nodes1, cells0, bars0, groups1,
                           firstLagrangeId, nextCell0, slaves[..k + 1])
      ensures |old(mesh.nodes)| <= |mesh.nodes| && forall p | 0 <= p < |old(mesh.nodes)| :: mesh.nodes[p] == old(mesh.nodes)[p]
    {
      assert slaves[..k + 1][..k] == slaves[..k];
      var slave := mesh.nodes[slavePosition];
      var slaveLagrPosition := mesh.AddNode(slave.x, slave.y, slave.z, slave.displacementCS);
      var slaveLagrId := mesh.nodes[slaveLagrPosition].id;
      var cellPosition := AddRbe2Cell(mesh, masterId, slave.id, masterRotId, slaveLagrId);
      assert mesh.cells[cellPosition] == Rbe2Bar(systusOption, masterId, slaves[k], nextCell0 + k, masterRotId, firstLagrangeId + k);
      rbe2RbarPositions := rbe2RbarPositions + [cellPosition];
      mesh.AddCellToGroup(group, mesh.cells[cellPosition].id);
    }

    /** The cell of one RBE2 bar: a 3-node segment under option 3, a 4-node one through the rotation node under option 4. */
    method AddRbe2Cell(mesh: Mesh, masterId: int, slaveId: int, masterRotId: int, slaveLagrId: int) returns (cellPosition: nat)
      requires systusOption == 3 || systusOption == 4
      modifies mesh
      ensures cellPosition == |old(mesh.cells)|
      ensures mesh.cells == old(mesh.cells) + [Cell(old(mesh.nextCellId), Rbe2CellType(systusOption),
                                                    Rbe2NodeIds(systusOption, masterId, slaveId, masterRotId, slaveLagrId),
                                                    [], UnavailableElem)]
      ensures mesh.nextCellId == old(mesh.nextCellId) + 1
      ensures mesh.nodes == old(mesh.nodes) && mesh.groups == old(mesh.groups) && mesh.nextNodeId == old(mesh.nextNodeId)
    {
      var nodes := [masterId, slaveId];
      if systusOption == 4 {
        nodes := nodes + [masterRotId];
      }
      nodes := nodes + [slaveLagrId];
      assert nodes == Rbe2NodeIds(systusOption, masterId, slaveId, masterRotId, slaveLagrId);
      if systusOption == 3 {
        cellPosition := mesh.AddCell(Seg3, nodes, []);
      } else {
        cellPosition := mesh.AddCell(Seg4, nodes, []);
      }
    }

    /** The bars of one RBE3: a group named after the constraint and a 2-node bar from the master to each slave, in the order given. */
    method AddRbe3Bars(mesh: Mesh, constraintId: int, master: nat, order: seq<int>)
      requires master < |mesh.nodes| && forall k | 0 <= k < |order| :: 0 <= order[k] < |mesh.nodes|
      modifies this`rbe3RbarPositions, mesh
      ensures mesh.nodes == old(mesh.nodes) && mesh.nextNodeId == old(mesh.nextNodeId)
      ensures mesh.cells == old(mesh.cells) + Rbe3Bars(old(mesh.nodes)[master].id, NodesAt(old(mesh.nodes), order), old(mesh.nextCellId))
      ensures mesh.nextCellId == old(mesh.nextCellId) + |order|
      ensures rbe3RbarPositions == old(rbe3RbarPositions) + Consecutive(|old(mesh.cells)|, |order|)
      ensures mesh.groups == old(mesh.groups) + [CellGroup(Rbe3Group(constraintId), IdRange(old(mesh.nextCellId), |order|))]
      ensures RbeStateOf(mesh) == Rbe3Added(old(RbeStateOf(mesh)), constraintId, master, order)
    {
      ghost var nodes0 := mesh.nodes;
      ghost var cells0 := mesh.cells;
      ghost var groups0 := mesh.groups;
      ghost var bars0 := rbe3RbarPositions;
      ghost var nextCell0 := mesh.nextCellId;
      ghost var slaves := NodesAt(nodes0, order);
      var group := mesh.CreateCellGroup(Rbe3Group(constraintId));
      ghost var groups1 := mesh.groups;
      var masterNode := mesh.nodes[master];
      var k := 0;
      while k < |order|
        invariant 0 <= k <= |order|
        invariant mesh.nodes == nodes0 && mesh.nextNodeId == old(mesh.nextNodeId)
        invariant mesh.cells == WithRbe3Bars(cells0, masterNode.id, slaves[..k], nextCell0)
        invariant rbe3RbarPositions == WithConsecutive(bars0, |cells0|, k)
        invariant group == |groups0| && group < |groups1| && groups1[group].name == Rbe3Group(constraintId)
        invariant mesh.groups == groups1[group := CellGroup(groups1[group].name, IdRange(nextCell0, k))]
        invariant mesh.nextCellId == nextCell0 + k
      {
        AddRbe3Bar(mesh, group, masterNode.id, order[k], cells0, bars0, groups1, nextCell0, slaves, k);
        k := k + 1;
      }
      assert slaves[..k] == slaves;
      WithRbe3BarsAppends(cells0, masterNode.id, slaves, nextCell0);
      WithConsecutiveAppends(bars0, |cells0|, k);
    }

    /** One slave of an RBE3, taking the bars of the first `k` slaves to those of the first `k + 1`. */
    method AddRbe3Bar(mesh: Mesh, group: nat, masterId: int, slavePosition: nat,
                      ghost cells0: seq<Cell>, ghost bars0: seq<nat>, ghost groups1: seq<CellGroup>, ghost nextCell0: int,
                      ghost slaves: seq<Node>, ghost k: nat)
      requires k < |slaves| && slavePosition < |mesh.nodes| && mesh.nodes[slavePosition] == slaves[k]
      requires mesh.cells == WithRbe3Bars(cells0, masterId, slaves[..k], nextCell0)
      requires rbe3RbarPositions == WithConsecutive(bars0, |cells0|, k)
      requires group < |groups1| && mesh.groups == groups1[group := CellGroup(groups1[group].name, IdRange(nextCell0, k))]
      requires mesh.nextCellId == nextCell0 + k
      modifies this`rbe3RbarPositions, mesh
      ensures mesh.nodes == old(mesh.nodes) && mesh.nextNodeId == old(mesh.nextNodeId)
      ensures mesh.cells == WithRbe3Bars(cells0, masterId, slaves[..k + 1], nextCell0)
      ensures rbe3RbarPositions == WithConsecutive(bars0, |cells0|, k + 1)
      ensures mesh.groups == groups1[group := CellGroup(groups1[group].name, IdRange(nextCell0, k + 1))]
      ensures mesh.nextCellId == nextCell0 + k + 1
    {
      assert slaves[..k + 1][..k] == slaves[..k];
      var slave := mesh.nodes[slavePosition];
      var nodes := [masterId, slave.id];
      var cellPosition := mesh.AddCell(Seg2, nodes, []);
      rbe3RbarPositions := rbe3RbarPositions + [cellPosition];
      mesh.AddCellToGroup(group, mesh.cells[cellPosition].id);
    }

    /** The mesh fields and the bar positions as they stand. */
    function RbeStateOf(mesh: Mesh): RbeState
      reads this, mesh
    {
      RbeState(mesh.nodes, mesh.nextNodeId, mesh.cells, mesh.nextCellId, mesh.groups, rbe2RbarPositions, rbe3RbarPositions)
    }

    /** `Generated`, of the mesh and the bar positions as they stand. */
    ghost predicate RbesProgress(mesh: Mesh, start: RbeState, n2: nat, n3: nat)
      reads this, mesh
    {
      Generated(systusOption, start, n2, n3, mesh.nodes, mesh.cells, mesh.groups, rbe2RbarPositions, rbe3RbarPositions)
    }

    /**
     * Generates the bars of the rigid bodies: for each common constraint
     * set, first its rigid constraints as RBE2s, then its RBE3s, each with
     * its slaves in ascending position order. The new mesh and bar positions
     * are `AllRbes` of the old ones; so what the mesh had stays, and one bar
     * per slave is added, of the shape of its kind.
     */
    method GenerateRbes(mesh: Mesh, sets: seq<WriterConstraintSet>)
      requires systusOption == 3 || systusOption == 4
      requires RigidPositionsExist(sets, |mesh.nodes|)
      modifies this`rbe2RbarPositions, this`rbe3RbarPositions, mesh
      ensures RbeStateOf(mesh) == AllRbes(old(RbeStateOf(mesh)), systusOption, sets)
      ensures RbesProgress(mesh, old(RbeStateOf(mesh)), BarCount(sets, true), BarCount(sets, false))
    {
      ghost var start := RbeStateOf(mesh);
      var i := 0;
      while i < |sets|
        invariant 0 <= i <= |sets|
        invariant RbeStateOf(mesh) == AllRbes(start, systusOption, sets[..i])
      {
        assert sets[..i + 1][..i] == sets[..i];
        PositionsGrow(sets[i].constraints, |start.nodes|, |mesh.nodes|);
        GenerateSetRbes(mesh, sets[i].constraints);
        i := i + 1;
      }
      assert sets[..i] == sets;
      AllRbesGenerated(systusOption, start, sets);
    }

    /** The bars of one constraint set: its rigid constraints, then its RBE3s. */
    method GenerateSetRbes(mesh: Mesh, constraints: seq<(int, Constraint)>)
      requires systusOption == 3 || systusOption == 4
      requires SetPositionsExist(constraints, |mesh.nodes|)
      modifies this`rbe2RbarPositions, this`rbe3RbarPositions, mesh
      ensures RbeStateOf(mesh) == SetRbes(old(RbeStateOf(mesh)), systusOption, constraints)
    {
      ghost var n0 := |mesh.nodes|;
      AddSetRigidBars(mesh, constraints);
      PositionsGrow(constraints, n0, |mesh.nodes|);
      AddSetRbe3Bars(mesh, constraints);
    }

    /** The RBE2 bars of one constraint set, one rigid constraint after another. */
    method AddSetRigidBars(mesh: Mesh, constraints: seq<(int, Constraint)>)
      requires systusOption == 3 || systusOption == 4
      requires SetPositionsExist(constraints, |mesh.nodes|)
      modifies this`rbe2RbarPositions, mesh
      ensures RbeStateOf(mesh) == Rbe2Pass(old(RbeStateOf(mesh)), systusOption, constraints)
    {
      ghost var st0 := RbeStateOf(mesh);
      var j := 0;
      while j < |constraints|
        invariant 0 <= j <= |constraints|
        invariant SetPositionsExist(constraints[..j], |st0.nodes|)
        invariant RbeStateOf(mesh) == Rbe2Pass(st0, systusOption, constraints[..j])
      {
        var c := constraints[j];
        Rbe2PassSnoc(st0, systusOption, constraints, j);
        ghost var before := RbeStateOf(mesh);
        if c.1.Rigid? {
          AddRbe2Bars(mesh, c.0, c.1.master, Sorted(c.1.slaves));
        }
        Rbe2PassStep(st0, systusOption, constraints, j, before, RbeStateOf(mesh));
        j := j + 1;
      }
      assert constraints[..j] == constraints;
    }

    /** The RBE3 bars of one constraint set, one RBE3 after another. */
    method AddSetRbe3Bars(mesh: Mesh, constraints: seq<(int, Constraint)>)
      requires SetPositionsExist(constraints, |mesh.nodes|)
      modifies this`rbe3RbarPositions, mesh
      ensures RbeStateOf(mesh) == Rbe3Pass(old(RbeStateOf(mesh)), constraints)
    {
      ghost var st0 := RbeStateOf(mesh);
      var j := 0;
      while j < |constraints|
        invariant 0 <= j <= |constraints|
        invariant SetPositionsExist(constraints[..j], |st0.nodes|)
        invariant RbeStateOf(mesh) == Rbe3Pass(st0, constraints[..j])
      {
        assert constraints[..j + 1][..j] == constraints[..j];
        var c := constraints[j];
        if c.1.Rbe3? {
          RigidPositionsAt(c.1, |mesh.nodes|);
          AddRbe3Bars(mesh, c.0, c.1.master, Sorted(c.1.slaves));
        }
        j := j + 1;
      }
      assert constraints[..j] == constraints;
    }
  }

  // ---------------------------------------------------------------------
  // Load numbering of an analysis
  // ---------------------------------------------------------------------

  /** The resolved entries of `sets` that belong to `uncommon`, in order. */
  function Uncommon<T(!new)>(sets: seq<Option<T>>, uncommon: set<T>): (r: seq<T>)
    ensures forall x :: x in r <==> Some(x) in sets && x in uncommon
  {
    if sets == [] then []
    else
      var last := sets[|sets| - 1];
      var before := Uncommon(sets[..|sets| - 1], uncommon);
      assert sets == sets[..|sets| - 1] + [last];
      if last.Some? && last.value in uncommon then before + [last.value] else before
  }

  /**
   * The load numbering of an analysis: the common sets take the first
   * numbers, then each effective load set that is uncommon takes the next
   * number, then each effective constraint set that is uncommon.
   */
  method NumberLoads(commonCount: nat,
                     loadSets: seq<Option<Loadings.LoadSetRef>>, uncommonLoadSets: set<Loadings.LoadSetRef>,
                     constraintSets: seq<Option<ConstraintSetRef>>, uncommonConstraintSets: set<ConstraintSetRef>)
    returns (loadSetNumbers: seq<nat>, constraintSetNumbers: seq<nat>, numberOfLoads: nat)
    ensures |loadSetNumbers| == |Uncommon(loadSets, uncommonLoadSets)|
    ensures |constraintSetNumbers| == |Uncommon(constraintSets, uncommonConstraintSets)|
    ensures forall k | 0 <= k < |loadSetNumbers| :: loadSetNumbers[k] == commonCount + k + 1
    ensures forall k | 0 <= k < |constraintSetNumbers| ::
      constraintSetNumbers[k] == commonCount + |loadSetNumbers| + k + 1
    ensures numberOfLoads == commonCount + |loadSetNumbers| + |constraintSetNumbers|
  {
    numberOfLoads := commonCount;
    loadSetNumbers := [];
    var i := 0;
    while i < |loadSets|
      invariant 0 <= i <= |loadSets|
      invariant |loadSetNumbers| == |Uncommon(loadSets[..i], uncommonLoadSets)|
      invariant numberOfLoads == commonCount + |loadSetNumbers|
      invariant forall k | 0 <= k < |loadSetNumbers| :: loadSetNumbers[k] == commonCount + k + 1
    {
      assert loadSets[..i + 1][..i] == loadSets[..i];
      var loadSet := loadSets[i];
      if loadSet.Some? && loadSet.value in uncommonLoadSets {
        numberOfLoads := numberOfLoads + 1;
        loadSetNumbers := loadSetNumbers + [numberOfLoads];
      }
      i := i + 1;
    }
    assert loadSets[..i] == loadSets;
    constraintSetNumbers := [];
    i := 0;
    while i < |constraintSets|
      invariant 0 <= i <= |constraintSets|
      invariant |constraintSetNumbers| == |Uncommon(constraintSets[..i], uncommonConstraintSets)|
      invariant numberOfLoads == commonCount + |loadSetNumbers| + |constraintSetNumbers|
      invariant forall k | 0 <= k < |constraintSetNumbers| ::
        constraintSetNumbers[k] == commonCount + |loadSetNumbers| + k + 1
    {
      assert constraintSets[..i + 1][..i] == constraintSets[..i];
      var constraintSet := constraintSets[i];
      if constraintSet.Some? && constraintSet.value in uncommonConstraintSets {
        numberOfLoads := numberOfLoads + 1;
        constraintSetNumbers := constraintSetNumbers + [numberOfLoads];
      }
      i := i + 1;
    }
    assert constraintSets[..i] == constraintSets;
  }

  /** The loads a static analysis combines: 1 up to the number of loads. */
  method AnalyseLoads(numberOfLoads: nat) returns (combined: seq<nat>)
    ensures |combined| == numberOfLoads
    ensures forall k | 0 <= k < numberOfLoads :: combined[k] == k + 1
  {
    combined := [];
    var iLoad := 1;
    while iLoad <= numberOfLoads
      invariant 1 <= iLoad <= numberOfLoads + 1 && |combined| == iLoad - 1
      invariant forall k | 0 <= k < iLoad - 1 :: combined[k] == k + 1
    {
      combined := combined + [iLoad];
      iLoad := iLoad + 1;
    }
  }

  /**
   * The combined loads are exactly the common loads followed by the numbers
   * the uncommon load sets and constraint sets received, each once.
   */
  lemma CombinedAreNumbered(commonCount: nat, loadSetNumbers: seq<nat>, constraintSetNumbers: seq<nat>,
                            combined: seq<nat>)
    requires forall k | 0 <= k < |loadSetNumbers| :: loadSetNumbers[k] == commonCount + k + 1
    requires forall k | 0 <= k < |constraintSetNumbers| ::
      constraintSetNumbers[k] == commonCount + |loadSetNumbers| + k + 1
    requires |combined| == commonCount + |loadSetNumbers| + |constraintSetNumbers|
    requires forall k | 0 <= k < |combined| :: combined[k] == k + 1
    ensures combined == combined[..commonCount] + loadSetNumbers + constraintSetNumbers
  {
    var rhs := combined[..commonCount] + loadSetNumbers + constraintSetNumbers;
    forall k | 0 <= k < |combined| ensures combined[k] == rhs[k] {
      if k >= commonCount + |loadSetNumbers| {
        assert rhs[k] == constraintSetNumbers[k - commonCount - |loadSetNumbers|];
      } else if k >= commonCount {
        assert rhs[k] == loadSetNumbers[k - commonCount];
      }
    }
  }
}
