/**
 * The mesh vocabulary the core works with: cell types with their node
 * counts and dimensions, nodes, cells, and a small mutable mesh to which the
 * Systus writer adds Lagrange nodes, rigid-bar cells and cell groups.
 *
 * The Mesh class body is not part of this model; its operations carry the
 * abstract contracts that the writer relies on: a node or cell is appended
 * at the next position and receives the next automatic id.
 */
module Meshes {

  /**
   * The twenty-four cell types of the mesh, in declaration order: the
   * twenty fixed-size MED types and the four polygonal and polyhedral types
   * whose cells carry their own number of nodes.
   */
  datatype CellType =
    | Point1 | Seg2 | Seg3 | Seg4 | PolyL | Tri3 | Quad4 | Polygon | Tri6 | Tri7
    | Quad8 | Quad9 | QPolyg | Tetra4 | Pyra5 | Penta6 | Hexa8 | Tetra10 | Hexgp12
    | Pyra13 | Penta15 | Hexa20 | Hexa27 | Polyhed

  /** The types whose node count is a property of the cell rather than of the type. */
  predicate IsPolyType(t: CellType)
  {
    t == PolyL || t == Polygon || t == QPolyg || t == Polyhed
  }

  /**
   * Number of nodes of a cell of each fixed-size type (MED conventions); 0
   * for the polygonal and polyhedral types, whose count no contract reads.
   */
  function NumNodes(t: CellType): nat
  {
    match t
    case PolyL | Polygon | QPolyg | Polyhed => 0
    case Point1 => 1
    case Seg2 => 2
    case Seg3 => 3
    case Seg4 => 4
    case Tri3 => 3
    case Quad4 => 4
    case Tri6 => 6
    case Tri7 => 7
    case Quad8 => 8
    case Quad9 => 9
    case Tetra4 => 4
    case Pyra5 => 5
    case Penta6 => 6
    case Hexa8 => 8
    case Tetra10 => 10
    case Hexgp12 => 12
    case Pyra13 => 13
    case Penta15 => 15
    case Hexa20 => 20
    case Hexa27 => 27
  }

  /** Space dimension code of each type: 0 for points, 1 for segments, 2 for faces, 3 for volumes. */
  function Dimension(t: CellType): (d: nat)
    ensures d <= 3
  {
    match t
    case Point1 => 0
    case Seg2 | Seg3 | Seg4 | PolyL => 1
    case Tri3 | Quad4 | Polygon | Tri6 | Tri7 | Quad8 | Quad9 | QPolyg => 2
    case _ => 3
  }

  /** A cell's node list has its type's length, for the fixed-size types. */
  predicate NodeCountFits(c: Cell)
  {
    IsPolyType(c.cellType) || |c.nodeIds| == NumNodes(c.cellType)
  }

  /** The scan order of the writer's cell-type array: the fixed-size types only. */
  const ScanOrder: seq<CellType> := [
    Point1, Seg2, Seg3, Seg4, Tri3, Quad4, Tri6, Tri7, Quad8, Quad9,
    Tetra4, Pyra5, Penta6, Hexa8, Tetra10, Hexgp12, Pyra13, Penta15,
    Hexa20, Hexa27]

  /**
   * The first ten scanned types are exactly the scanned types of dimension
   * at most 2, and these are the fixed-size types of dimension at most 2:
   * the polyline and the two polygon types are of low dimension but are
   * not scanned.
   */
  lemma FirstTenAreLowDimensional(i: nat)
    requires i < |ScanOrder|
    ensures i < 10 <==> Dimension(ScanOrder[i]) <= 2
    ensures forall t: CellType :: t in ScanOrder[..10] <==> Dimension(t) <= 2 && !IsPolyType(t)
  {
    assert ScanOrder[..10] == [Point1, Seg2, Seg3, Seg4, Tri3, Quad4, Tri6, Tri7, Quad8, Quad9];
  }

  /** The scanned types are exactly the fixed-size types. */
  lemma ScannedTypes()
    ensures forall t: CellType :: t in ScanOrder <==> !IsPolyType(t)
  {
  }

  /** Every scanned type has at least one node. */
  lemma ScannedHaveNodes()
    ensures forall i | 0 <= i < |ScanOrder| :: NumNodes(ScanOrder[i]) >= 1
  {
  }

  /** The id marking a cell that belongs to no element set. */
  const UnavailableElem: int := -2147483648

  /** The number of cells of type `t`; positive exactly when some cell has that type. */
  function CountCells(cells: seq<Cell>, t: CellType): (count: nat)
    ensures count > 0 <==> exists i | 0 <= i < |cells| :: cells[i].cellType == t
    ensures count <= |cells|
  {
    if cells == [] then 0
    else
      var rest := CountCells(cells[1..], t);
      assert forall i | 1 <= i < |cells| :: cells[i] == cells[1..][i - 1];
      (if cells[0].cellType == t then 1 else 0) + rest
  }

  datatype Node = Node(id: int, x: real, y: real, z: real, displacementCS: int)

  datatype Cell = Cell(
    id: int,
    cellType: CellType,
    nodeIds: seq<int>,
    nodePositions: seq<int>,
    elementId: int)

  /** Names of the cell groups created for rigid elements. */
  datatype GroupName = Rbe2Group(constraintId: int) | Rbe3Group(constraintId: int)

  datatype CellGroup = CellGroup(name: GroupName, cellIds: set<int>)

  class Mesh {
    var nodes: seq<Node>
    var cells: seq<Cell>
    var groups: seq<CellGroup>
    var nextNodeId: int
    var nextCellId: int

    constructor ()
      ensures nodes == [] && cells == [] && groups == []
    {
      nodes := [];
      cells := [];
      groups := [];
      nextNodeId := 1;
      nextCellId := 1;
    }

    /** Appends a node with the next automatic id and returns its position. */
    method AddNode(x: real, y: real, z: real, displacementCS: int) returns (position: nat)
      modifies this
      ensures position == |old(nodes)|
      ensures nodes == old(nodes) + [Node(old(nextNodeId), x, y, z, displacementCS)]
      ensures nextNodeId == old(nextNodeId) + 1
      ensures cells == old(cells) && groups == old(groups) && nextCellId == old(nextCellId)
    {
      position := |nodes|;
      nodes := nodes + [Node(nextNodeId, x, y, z, displacementCS)];
      nextNodeId := nextNodeId + 1;
    }

    /** Appends a cell with the next automatic id and returns its position. */
    method AddCell(cellType: CellType, nodeIds: seq<int>, nodePositions: seq<int>) returns (position: nat)
      modifies this
      ensures position == |old(cells)|
      ensures cells == old(cells) + [Cell(old(nextCellId), cellType, nodeIds, nodePositions, UnavailableElem)]
      ensures nextCellId == old(nextCellId) + 1
      ensures nodes == old(nodes) && groups == old(groups) && nextNodeId == old(nextNodeId)
    {
      position := |cells|;
      cells := cells + [Cell(nextCellId, cellType, nodeIds, nodePositions, UnavailableElem)];
      nextCellId := nextCellId + 1;
    }

    /** Appends an empty cell group and returns its index. */
    method CreateCellGroup(name: GroupName) returns (g: nat)
      modifies this
      ensures g == |old(groups)|
      ensures groups == old(groups) + [CellGroup(name, {})]
      ensures nodes == old(nodes) && cells == old(cells)
      ensures nextNodeId == old(nextNodeId) && nextCellId == old(nextCellId)
    {
      g := |groups|;
      groups := groups + [CellGroup(name, {})];
    }

    /** Adds a cell id to a group. */
    method AddCellToGroup(g: nat, cellId: int)
      requires g < |groups|
      modifies this
      ensures groups == old(groups)[g := CellGroup(old(groups)[g].name, old(groups)[g].cellIds + {cellId})]
      ensures nodes == old(nodes) && cells == old(cells)
      ensures nextNodeId == old(nextNodeId) && nextCellId == old(nextCellId)
    {
      groups := groups[g := CellGroup(groups[g].name, groups[g].cellIds + {cellId})];
    }
  }
}
