/**
 * The Systus node ordering of a cell. For each supported cell type the
 * writer holds a table entry `perm`; position `i` of a Systus cell is the
 * node at position `perm[i]` of the MED cell. Cell types without an entry
 * are not written.
 */
module SystusConnect {
  import opened Wrappers
  import opened Meshes
  import opened Collections

  /**
   * The connectivity table: the entry of each supported cell type, None for
   * a type the table has no entry for.
   */
  function ConnectEntry(t: CellType): Option<seq<int>>
  {
    match t
    case Point1 => Some([0])
    case Seg2 => Some([0, 1])
    case Seg3 => Some([0, 2, 1])
    case Tri3 => Some([0, 2, 1])
    case Tri6 => Some([0, 5, 2, 4, 1, 3])
    case Quad4 => Some([0, 3, 2, 1])
    case Quad8 => Some([0, 7, 3, 6, 2, 5, 1, 4])
    case Tetra4 => Some([0, 2, 1, 3])
    case Tetra10 => Some([0, 6, 2, 5, 1, 4, 7, 9, 8, 3])
    case Penta6 => Some([0, 2, 1, 3, 5, 4])
    case Penta15 => Some([0, 8, 2, 7, 1, 6, 12, 14, 13, 3, 11, 5, 10, 4, 9])
    case Hexa8 => Some([0, 3, 2, 1, 4, 7, 6, 5])
    case Hexa20 => Some([0, 11, 3, 10, 2, 9, 1, 8, 16, 19, 18, 17, 4, 15, 7, 14, 6, 13, 5, 12])
    case _ => None
  }

  /** `p` and its inverse `q` undo each other on 0 .. k-1. */
  predicate Inverses(p: seq<int>, q: seq<int>, k: nat)
  {
    && |p| == k && |q| == k
    && (forall i | 0 <= i < k :: 0 <= p[i] < k && 0 <= q[i] < k)
    && (forall i | 0 <= i < k :: q[p[i]] == i)
    && (forall v | 0 <= v < k :: p[q[v]] == v)
  }

  /** A sequence with an inverse is a permutation. */
  lemma InverseGivesPermutation(p: seq<int>, q: seq<int>, k: nat)
    requires Inverses(p, q, k)
    ensures IsPermutation(p)
  {
    forall i, j | 0 <= i < j < k ensures p[i] != p[j] {
      assert q[p[i]] == i && q[p[j]] == j;
    }
  }

  /** Positions 0 .. n-1 of `p` and `q` undo each other; a check that evaluates on constants. */
  predicate UndoneBelow(p: seq<int>, q: seq<int>, n: nat)
    requires n <= |p| && n <= |q|
  {
    n == 0 ||
    (&& 0 <= p[n - 1] < |q| && 0 <= q[n - 1] < |p|
     && q[p[n - 1]] == n - 1 && p[q[n - 1]] == n - 1
     && UndoneBelow(p, q, n - 1))
  }

  lemma {:induction false} UndoneBelowGivesInverses(p: seq<int>, q: seq<int>, n: nat)
    requires |p| == |q| && n <= |p| && UndoneBelow(p, q, n)
    ensures forall i | 0 <= i < n :: 0 <= p[i] < |q| && 0 <= q[i] < |p| && q[p[i]] == i && p[q[i]] == i
  {
    if n > 0 {
      UndoneBelowGivesInverses(p, q, n - 1);
    }
  }

  /** A table entry with a checked inverse is a permutation. */
  lemma EntryIsPermutation(p: seq<int>, q: seq<int>)
    requires |p| == |q| && UndoneBelow(p, q, |p|)
    ensures IsPermutation(p)
  {
    UndoneBelowGivesInverses(p, q, |p|);
    InverseGivesPermutation(p, q, |p|);
  }

  /** As `EntryIsPermutation`, with the check evaluated in stages for the longer entries. */
  lemma LongEntryIsPermutation(p: seq<int>, q: seq<int>)
    requires |p| == |q| && 10 <= |p| <= 20
    requires UndoneBelow(p, q, 5) && UndoneBelow(p, q, 10)
    requires UndoneBelow(p, q, if |p| < 15 then |p| else 15) && UndoneBelow(p, q, |p|)
    ensures IsPermutation(p)
  {
    EntryIsPermutation(p, q);
  }

  /** The table entries of at most ten nodes are permutations. */
  lemma {:induction false} ShortEntriesArePermutations(t: CellType)
    requires ConnectEntry(t).Some? && t != Penta15 && t != Hexa20
    ensures |ConnectEntry(t).value| == NumNodes(t) && IsPermutation(ConnectEntry(t).value)
  {
    match t
    case Point1 => EntryIsPermutation(ConnectEntry(t).value, [0]);
    case Seg2 => EntryIsPermutation(ConnectEntry(t).value, [0, 1]);
    case Seg3 => EntryIsPermutation(ConnectEntry(t).value, [0, 2, 1]);
    case Tri3 => EntryIsPermutation(ConnectEntry(t).value, [0, 2, 1]);
    case Tri6 => EntryIsPermutation(ConnectEntry(t).value, [0, 4, 2, 5, 3, 1]);
    case Quad4 => EntryIsPermutation(ConnectEntry(t).value, [0, 3, 2, 1]);
    case Quad8 => EntryIsPermutation(ConnectEntry(t).value, [0, 6, 4, 2, 7, 5, 3, 1]);
    case Tetra4 => EntryIsPermutation(ConnectEntry(t).value, [0, 2, 1, 3]);
    case Tetra10 => EntryIsPermutation(ConnectEntry(t).value, [0, 4, 2, 9, 5, 3, 1, 6, 8, 7]);
    case Penta6 => EntryIsPermutation(ConnectEntry(t).value, [0, 2, 1, 3, 5, 4]);
    case Hexa8 => EntryIsPermutation(ConnectEntry(t).value, [0, 3, 2, 1, 4, 7, 6, 5]);
    case _ => assert false;
  }

  lemma Penta15EntryIsPermutation()
    ensures |ConnectEntry(Penta15).value| == NumNodes(Penta15) && IsPermutation(ConnectEntry(Penta15).value)
  {
    var t := Penta15;
    LongEntryIsPermutation(ConnectEntry(t).value, [0, 4, 2, 9, 13, 11, 5, 3, 1, 14, 12, 10, 6, 8, 7]);
  }

  lemma Hexa20EntryIsPermutation()
    ensures |ConnectEntry(Hexa20).value| == NumNodes(Hexa20) && IsPermutation(ConnectEntry(Hexa20).value)
  {
    var t := Hexa20;
    LongEntryIsPermutation(ConnectEntry(t).value, [0, 6, 4, 2, 12, 18, 16, 14, 7, 5, 3, 1, 19, 17, 15, 13, 8, 11, 10, 9]);
  }

  /**
   * Every table entry is a permutation of the positions of a cell of its
   * type: its length is the type's node count and it lists each position once.
   */
  lemma TableEntriesArePermutations(t: CellType)
    requires ConnectEntry(t).Some?
    ensures |ConnectEntry(t).value| == NumNodes(t) && IsPermutation(ConnectEntry(t).value)
  {
    if t == Penta15 {
      Penta15EntryIsPermutation();
    } else if t == Hexa20 {
      Hexa20EntryIsPermutation();
    } else {
      ShortEntriesArePermutations(t);
    }
  }

  /**
   * The types the writer has no ordering for: seven fixed-size types and
   * the four polygonal and polyhedral types.
   */
  lemma UnsupportedTypes(t: CellType)
    ensures ConnectEntry(t).None? <==>
      t in {Seg4, Tri7, Quad9, Pyra5, Hexgp12, Pyra13, Hexa27} || IsPolyType(t)
  {
  }

  /**
   * The Systus connectivity of one cell: the reordering through the table
   * entry of its type, or None when its type has no entry.
   */
  function SystusConnectOf(c: Cell): (r: Option<seq<int>>)
    requires NodeCountFits(c)
    ensures r.None? <==> ConnectEntry(c.cellType).None?
    ensures r.Some? ==> multiset(r.value) == multiset(c.nodeIds)
  {
    if ConnectEntry(c.cellType).Some? then
      var perm := ConnectEntry(c.cellType).value;
      TableEntriesArePermutations(c.cellType);
      PermutePreservesMultiset(c.nodeIds, perm);
      assert c.nodeIds[..|perm|] == c.nodeIds;
      Some(Permute(c.nodeIds, perm))
    else
      None
  }

  /**
   * The reorder loop for one cell: for each of the type's `numNodes`
   * positions, push the MED node the table entry names.
   */
  method Reorder(perm: seq<int>, medConnect: seq<int>, numNodes: nat) returns (systusConnect: seq<int>)
    requires numNodes <= |perm|
    requires forall i | 0 <= i < numNodes :: 0 <= perm[i] < |medConnect|
    ensures |systusConnect| == numNodes
    ensures forall i | 0 <= i < numNodes :: systusConnect[i] == medConnect[perm[i]]
  {
    systusConnect := [];
    var i := 0;
    while i < numNodes
      invariant 0 <= i <= numNodes && |systusConnect| == i
      invariant forall t | 0 <= t < i :: systusConnect[t] == medConnect[perm[t]]
    {
      systusConnect := systusConnect + [medConnect[perm[i]]];
      i := i + 1;
    }
  }

  /**
   * The connectivities the element-writing loop produces for a group's
   * cells, in order: cells whose type has no table entry are skipped.
   */
  function SupportedConnects(cells: seq<Cell>): (r: seq<seq<int>>)
    requires forall i | 0 <= i < |cells| :: NodeCountFits(cells[i])
  {
    if cells == [] then []
    else
      var last := |cells| - 1;
      var before := SupportedConnects(cells[..last]);
      match SystusConnectOf(cells[last])
      case Some(connect) => before + [connect]
      case None => before
  }

  /** The positions of the cells the writer has a connectivity for. */
  function SupportedPositions(cells: seq<Cell>): set<int>
  {
    set i | 0 <= i < |cells| && ConnectEntry(cells[i].cellType).Some?
  }

  /** One more cell adds its position exactly when its type has a table entry. */
  lemma SupportedPositionsSnoc(cells: seq<Cell>)
    requires cells != []
    ensures SupportedPositions(cells) ==
      SupportedPositions(cells[..|cells| - 1])
      + (if ConnectEntry(cells[|cells| - 1].cellType).Some? then {|cells| - 1} else {})
  {
    var last := |cells| - 1;
    var init := cells[..last];
    var here := SupportedPositions(cells);
    var there := SupportedPositions(init);
    var extra: set<int> := if ConnectEntry(cells[last].cellType).Some? then {last} else {};
    forall i | i in here ensures i in there + extra {
      if i < last {
        assert init[i] == cells[i];
      }
    }
    forall i | i in there + extra ensures i in here {
      if i in there {
        assert init[i] == cells[i];
      }
    }
  }

  /** One connectivity is written per supported cell. */
  lemma {:induction false} SupportedConnectsCount(cells: seq<Cell>)
    requires forall i | 0 <= i < |cells| :: NodeCountFits(cells[i])
    ensures |SupportedConnects(cells)| == |SupportedPositions(cells)|
  {
    if cells != [] {
      var last := |cells| - 1;
      var init := cells[..last];
      assert forall i | 0 <= i < |init| :: init[i] == cells[i];
      SupportedConnectsCount(init);
      var there := SupportedPositions(init);
      var extra: set<int> := if ConnectEntry(cells[last].cellType).Some? then {last} else {};
      SupportedPositionsSnoc(cells);
      assert last !in there;
      assert |there + extra| == |there| + |extra|;
      assert SystusConnectOf(cells[last]).Some? <==> extra == {last};
    }
  }

  /** Each written connectivity is a rearrangement of the node ids of some supported cell. */
  lemma {:induction false} SupportedConnectsAreRearrangements(cells: seq<Cell>)
    requires forall i | 0 <= i < |cells| :: NodeCountFits(cells[i])
    ensures forall k | 0 <= k < |SupportedConnects(cells)| :: exists i | 0 <= i < |cells| ::
      ConnectEntry(cells[i].cellType).Some? && multiset(SupportedConnects(cells)[k]) == multiset(cells[i].nodeIds)
  {
    if cells != [] {
      var last := |cells| - 1;
      var init := cells[..last];
      SupportedConnectsAreRearrangements(init);
      var r := SupportedConnects(cells);
      var before := SupportedConnects(init);
      var here := SystusConnectOf(cells[last]);
      assert r == before + (if here.Some? then [here.value] else []);
      forall k | 0 <= k < |r| ensures exists i | 0 <= i < |cells| ::
        ConnectEntry(cells[i].cellType).Some? && multiset(r[k]) == multiset(cells[i].nodeIds)
      {
        if k == |before| {
          assert here.Some? && r[k] == here.value;
          assert ConnectEntry(cells[last].cellType).Some? && multiset(r[k]) == multiset(cells[last].nodeIds);
        } else {
          assert r[k] == before[k];
          var i :| 0 <= i < |init| && ConnectEntry(init[i].cellType).Some?
                   && multiset(before[k]) == multiset(init[i].nodeIds);
          assert cells[i] == init[i];
          assert ConnectEntry(cells[i].cellType).Some? && multiset(r[k]) == multiset(cells[i].nodeIds);
        }
      }
    } else {
      assert SupportedConnects(cells) == [];
    }
  }

  /** The element-writing loop over a group's cells. */
  method SystusConnects(cells: seq<Cell>) returns (connects: seq<seq<int>>)
    requires forall i | 0 <= i < |cells| :: NodeCountFits(cells[i])
    ensures connects == SupportedConnects(cells)
  {
    connects := [];
    var i := 0;
    while i < |cells|
      invariant 0 <= i <= |cells|
      invariant connects == SupportedConnects(cells[..i])
    {
      var cell := cells[i];
      assert cells[..i + 1][..i] == cells[..i];
      if ConnectEntry(cell.cellType).Some? {
        var perm := ConnectEntry(cell.cellType).value;
        TableEntriesArePermutations(cell.cellType);
        var systusConnect := Reorder(perm, cell.nodeIds, NumNodes(cell.cellType));
        assert systusConnect == Permute(cell.nodeIds, perm);
        connects := connects + [systusConnect];
      }
      i := i + 1;
    }
    assert cells[..i] == cells;
  }
}
