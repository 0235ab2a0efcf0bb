/**
 * The tables the Systus writer fills from the common load sets and the
 * common constraint sets before it writes lists: which nodal force of
 * which load set acts on each node, and which DOFs the SPCs fix at each
 * node, masked by the DOF code of the Systus option.
 *
 * The collections the writer iterates are flattened into one sequence of
 * items in iteration order, and each table is the left fold of one step
 * over the items.
 */
module SystusLists {
  import opened Wrappers
  import opened Dofs
  import opened Constraints
  import opened Loadings

  /** A load set as the writer reads it: its id and its loadings with their ids, in iteration order. */
  datatype WriterLoadSet = WriterLoadSet(id: int, loadings: seq<(int, Loading)>)

  /** A constraint set as the writer reads it: its id and its constraints with their ids, in iteration order. */
  datatype WriterConstraintSet = WriterConstraintSet(id: int, constraints: seq<(int, Constraint)>)

  /** Node position to set id to member id. */
  type NodeTable = map<int, map<int, int>>

  /** The row of a node: what the table holds for it, empty when it holds nothing. */
  function Row(t: NodeTable, n: int): map<int, int>
  {
    if n in t then t[n] else map[]
  }

  // ---------------------------------------------------------------------
  // Loads
  // ---------------------------------------------------------------------

  /** One loading of one load set. */
  datatype LoadItem = LoadItem(setId: int, loadingId: int, loading: Loading)

  function LoadItemsOf(ls: WriterLoadSet): (items: seq<LoadItem>)
    ensures |items| == |ls.loadings|
    ensures forall k | 0 <= k < |items| :: items[k] == LoadItem(ls.id, ls.loadings[k].0, ls.loadings[k].1)
  {
    seq(|ls.loadings|, k requires 0 <= k < |ls.loadings| => LoadItem(ls.id, ls.loadings[k].0, ls.loadings[k].1))
  }

  /** The loadings of the sets, set after set, in the order the writer visits them. */
  function LoadItems(sets: seq<WriterLoadSet>): seq<LoadItem>
  {
    if sets == [] then [] else LoadItems(sets[..|sets| - 1]) + LoadItemsOf(sets[|sets| - 1])
  }

  /** The loading kinds the writer accepts in a common load set. */
  predicate SupportedLoading(l: Loading)
  {
    Type(l) == NodalForceType || Type(l) == GravityType || Type(l) == RotationType
  }

  /** The node a nodal force acts on. */
  function ForceNode(l: Loading): int
    requires Type(l) == NodalForceType
  {
    match l.kind
    case NodalForce(node, _, _) => node
    case NodalForceTwoNodes(node, _, _, _, _) => node
  }

  /** The item is a nodal force acting on node `n`. */
  predicate ForceAt(it: LoadItem, n: int)
  {
    Type(it.loading) == NodalForceType && ForceNode(it.loading) == n
  }

  /**
   * One loading: a nodal force records its id under its node and its set,
   * replacing what was there; gravity and rotation are skipped; any other
   * kind is an error.
   */
  function LoadStep(t: NodeTable, it: LoadItem): Option<NodeTable>
  {
    if Type(it.loading) == NodalForceType then
      var n := ForceNode(it.loading);
      Some(t[n := Row(t, n)[it.setId := it.loadingId]])
    else if Type(it.loading) == GravityType || Type(it.loading) == RotationType then
      Some(t)
    else
      None
  }

  /** The table after all items, None once an unsupported loading came up. */
  function FoldLoads(items: seq<LoadItem>): Option<NodeTable>
  {
    if items == [] then Some(map[])
    else
      match FoldLoads(items[..|items| - 1])
      case None => None
      case Some(t) => LoadStep(t, items[|items| - 1])
  }

  /** Folding one more item is one more step. */
  lemma FoldLoadsSnoc(items: seq<LoadItem>, it: LoadItem)
    ensures FoldLoads(items + [it]) == match FoldLoads(items) case None => None case Some(t) => LoadStep(t, it)
  {
    assert (items + [it])[..|items|] == items;
  }

  /** The fold succeeds exactly when every loading is of a supported kind. */
  lemma {:induction false} FoldLoadsDefined(items: seq<LoadItem>)
    ensures FoldLoads(items).Some? <==> forall k | 0 <= k < |items| :: SupportedLoading(items[k].loading)
  {
    if items != [] {
      var init := items[..|items| - 1];
      FoldLoadsDefined(init);
      assert forall k | 0 <= k < |init| :: init[k] == items[k];
    }
  }

  /**
   * After a successful fold, a node has a row exactly when some nodal force
   * acts on it, the row has a set id exactly when a force of that set acts on
   * the node, and the entry is the id of the last such force.
   */
  lemma {:induction false} FoldLoadsEntries(items: seq<LoadItem>)
    requires FoldLoads(items).Some?
    ensures var t := FoldLoads(items).value;
      && (forall n :: n in t <==> exists k | 0 <= k < |items| :: ForceAt(items[k], n))
      && (forall n, s | n in t :: s in t[n] <==> exists k | 0 <= k < |items| :: ForceAt(items[k], n) && items[k].setId == s)
  {
    if items != [] {
      var last := |items| - 1;
      var init := items[..last];
      FoldLoadsEntries(init);
      assert forall k | 0 <= k < |init| :: init[k] == items[k];
    }
  }

  /** The entry for a node and a set is the id of the last force of that set acting on that node. */
  lemma {:induction false} FoldLoadsLastWins(items: seq<LoadItem>, n: int, s: int)
    requires FoldLoads(items).Some?
    requires n in FoldLoads(items).value && s in FoldLoads(items).value[n]
    ensures exists k | 0 <= k < |items| ::
      && ForceAt(items[k], n) && items[k].setId == s
      && items[k].loadingId == FoldLoads(items).value[n][s]
      && forall k' | k < k' < |items| :: !(ForceAt(items[k'], n) && items[k'].setId == s)
  {
    var last := |items| - 1;
    var init := items[..last];
    var t := FoldLoads(items).value;
    var it := items[last];
    assert forall k | 0 <= k < |init| :: init[k] == items[k];
    if ForceAt(it, n) && it.setId == s {
      assert t[n][s] == it.loadingId;
    } else {
      assert FoldLoads(init).value == FoldLoads(init).value;
      var t0 := FoldLoads(init).value;
      assert n in t0 && s in t0[n] && t0[n][s] == t[n][s];
      FoldLoadsLastWins(init, n, s);
    }
  }

  /** The items of the sets are exactly the loadings of the sets, tagged with their set's id. */
  lemma {:induction false} LoadItemsMembers(sets: seq<WriterLoadSet>, it: LoadItem)
    ensures it in LoadItems(sets) <==>
      exists i, j | 0 <= i < |sets| && 0 <= j < |sets[i].loadings| ::
        it == LoadItem(sets[i].id, sets[i].loadings[j].0, sets[i].loadings[j].1)
  {
    if sets != [] {
      var last := |sets| - 1;
      var init := sets[..last];
      var here := LoadItemsOf(sets[last]);
      LoadItemsMembers(init, it);
      assert LoadItems(sets) == LoadItems(init) + here;
      if it in LoadItems(sets) {
        if it in here {
          var j :| 0 <= j < |here| && here[j] == it;
          assert it == LoadItem(sets[last].id, sets[last].loadings[j].0, sets[last].loadings[j].1);
        } else {
          var i, j :| 0 <= i < |init| && 0 <= j < |init[i].loadings| &&
            it == LoadItem(init[i].id, init[i].loadings[j].0, init[i].loadings[j].1);
          assert init[i] == sets[i];
        }
      }
      if exists i, j | 0 <= i < |sets| && 0 <= j < |sets[i].loadings| ::
           it == LoadItem(sets[i].id, sets[i].loadings[j].0, sets[i].loadings[j].1) {
        var i, j :| 0 <= i < |sets| && 0 <= j < |sets[i].loadings| &&
          it == LoadItem(sets[i].id, sets[i].loadings[j].0, sets[i].loadings[j].1);
        if i < last {
          assert init[i] == sets[i];
          assert it in LoadItems(init);
        } else {
          assert here[j] == it;
        }
      }
    }
  }

  // ---------------------------------------------------------------------
  // Single-point constraints
  // ---------------------------------------------------------------------

  /** One constraint of one constraint set. */
  datatype ConstraintItem = ConstraintItem(setId: int, constraintId: int, constraint: Constraint)

  function ConstraintItemsOf(cs: WriterConstraintSet): (items: seq<ConstraintItem>)
    ensures |items| == |cs.constraints|
    ensures forall k | 0 <= k < |items| ::
      items[k] == ConstraintItem(cs.id, cs.constraints[k].0, cs.constraints[k].1)
  {
    seq(|cs.constraints|, k requires 0 <= k < |cs.constraints| =>
      ConstraintItem(cs.id, cs.constraints[k].0, cs.constraints[k].1))
  }

  /** The constraints of the sets, set after set, in the order the writer visits them. */
  function ConstraintItems(sets: seq<WriterConstraintSet>): seq<ConstraintItem>
  {
    if sets == [] then [] else ConstraintItems(sets[..|sets| - 1]) + ConstraintItemsOf(sets[|sets| - 1])
  }

  /**
   * The two tables the SPC loop fills: the fixed DOFs by node, and by node
   * the Systus constraint id under the Systus set id.
   */
  datatype SpcTables = SpcTables(dofsByNode: map<int, Dofs>, idsByNode: NodeTable)

  function DofsAt(m: map<int, Dofs>, n: int): Dofs
  {
    if n in m then m[n] else NoDofs
  }

  /** The item is an SPC that covers node `n`. */
  predicate Covers(it: ConstraintItem, n: int)
  {
    it.constraint.Spc? && n in Constraints.NodePositions(it.constraint)
  }

  /**
   * The SPC item applied at the nodes of `nodes`: at each, its DOFs masked
   * by `code` join what the node had, and its Systus id is recorded under
   * its Systus set id. The Systus ids are the set and constraint ids shifted
   * by the offsets the writer adds.
   */
  function SpcAtNodes(acc: SpcTables, it: ConstraintItem, nodes: set<int>, code: Dofs,
                      setOffset: int, constraintOffset: int): SpcTables
    requires it.constraint.Spc?
  {
    SpcTables(DofsAtNodes(acc.dofsByNode, it.constraint, nodes, code),
              IdsAtNodes(acc.idsByNode, nodes, setOffset + it.setId, constraintOffset + it.constraintId))
  }

  /** At each node of `nodes`, the DOFs of `c` masked by `code` join what the node had. */
  function DofsAtNodes(dofs: map<int, Dofs>, c: Constraint, nodes: set<int>, code: Dofs): map<int, Dofs>
    requires c.Spc?
  {
    map n | n in dofs.Keys + nodes ::
      if n in nodes then (SpcDofsAt(c, n) * code) + DofsAt(dofs, n) else dofs[n]
  }

  /** At each node of `nodes`, the row records `value` under `key`. */
  function IdsAtNodes(ids: NodeTable, nodes: set<int>, key: int, value: int): NodeTable
  {
    map n | n in ids.Keys + nodes :: if n in nodes then Row(ids, n)[key := value] else ids[n]
  }

  /** One constraint: an SPC is applied at all its nodes; rigid bodies and any other kind leave the tables alone. */
  function SpcStep(acc: SpcTables, it: ConstraintItem, code: Dofs, setOffset: int, constraintOffset: int): SpcTables
  {
    if it.constraint.Spc? then
      SpcAtNodes(acc, it, Constraints.NodePositions(it.constraint), code, setOffset, constraintOffset)
    else
      acc
  }

  function FoldSpcs(acc: SpcTables, items: seq<ConstraintItem>, code: Dofs,
                    setOffset: int, constraintOffset: int): SpcTables
  {
    if items == [] then acc
    else SpcStep(FoldSpcs(acc, items[..|items| - 1], code, setOffset, constraintOffset),
                 items[|items| - 1], code, setOffset, constraintOffset)
  }

  /** Folding one more item is one more step. */
  lemma FoldSpcsSnoc(acc: SpcTables, items: seq<ConstraintItem>, it: ConstraintItem, code: Dofs,
                     setOffset: int, constraintOffset: int)
    ensures FoldSpcs(acc, items + [it], code, setOffset, constraintOffset)
      == SpcStep(FoldSpcs(acc, items, code, setOffset, constraintOffset), it, code, setOffset, constraintOffset)
  {
    assert (items + [it])[..|items|] == items;
  }

  /**
   * After the fold, a node has fixed DOFs exactly when it had some before or
   * an SPC covers it, and they are the ones it had joined with the DOFs in
   * `code` of every SPC that covers it.
   */
  lemma {:induction false} FoldSpcsDofs(acc: SpcTables, items: seq<ConstraintItem>, code: Dofs,
                                        setOffset: int, constraintOffset: int, n: int)
    ensures var r := FoldSpcs(acc, items, code, setOffset, constraintOffset).dofsByNode;
      && (n in r <==> n in acc.dofsByNode || exists k | 0 <= k < |items| :: Covers(items[k], n))
      && (forall d :: d in DofsAt(r, n) <==>
            d in DofsAt(acc.dofsByNode, n) ||
            exists k | 0 <= k < |items| :: Covers(items[k], n) && d in SpcDofsAt(items[k].constraint, n) && d in code)
  {
    if items != [] {
      var last := |items| - 1;
      var init := items[..last];
      FoldSpcsDofs(acc, init, code, setOffset, constraintOffset, n);
      SpcStepDofs(FoldSpcs(acc, init, code, setOffset, constraintOffset), items[last], code, setOffset, constraintOffset, n);
      assert forall k | 0 <= k < |init| :: init[k] == items[k];
    }
  }

  /** One step of the fold, as `FoldSpcsDofs` states it of the whole fold. */
  lemma SpcStepDofs(acc: SpcTables, it: ConstraintItem, code: Dofs, setOffset: int, constraintOffset: int, n: int)
    ensures var r := SpcStep(acc, it, code, setOffset, constraintOffset).dofsByNode;
      && (n in r <==> n in acc.dofsByNode || Covers(it, n))
      && (forall d :: d in DofsAt(r, n) <==>
            d in DofsAt(acc.dofsByNode, n) || (Covers(it, n) && d in SpcDofsAt(it.constraint, n) && d in code))
  {
  }

  /** Masking keeps every node's DOFs inside the DOF code. */
  lemma FoldSpcsWithinCode(acc: SpcTables, items: seq<ConstraintItem>, code: Dofs,
                           setOffset: int, constraintOffset: int, n: int)
    requires DofsAt(acc.dofsByNode, n) <= code
    ensures DofsAt(FoldSpcs(acc, items, code, setOffset, constraintOffset).dofsByNode, n) <= code
  {
    FoldSpcsDofs(acc, items, code, setOffset, constraintOffset, n);
  }

  /**
   * After the fold, a node has a row exactly when it had one or an SPC covers
   * it, and the row holds a Systus set id exactly when it held it or an SPC
   * of that set covers the node.
   */
  lemma {:induction false} FoldSpcsIds(acc: SpcTables, items: seq<ConstraintItem>, code: Dofs,
                                       setOffset: int, constraintOffset: int, n: int)
    ensures var r := FoldSpcs(acc, items, code, setOffset, constraintOffset).idsByNode;
      && (n in r <==> n in acc.idsByNode || exists k | 0 <= k < |items| :: Covers(items[k], n))
      && (forall s :: s in Row(r, n) <==>
            s in Row(acc.idsByNode, n) ||
            exists k | 0 <= k < |items| :: Covers(items[k], n) && setOffset + items[k].setId == s)
  {
    if items != [] {
      var last := |items| - 1;
      var init := items[..last];
      FoldSpcsIds(acc, init, code, setOffset, constraintOffset, n);
      SpcStepIds(FoldSpcs(acc, init, code, setOffset, constraintOffset), items[last], code, setOffset, constraintOffset, n);
      assert forall k | 0 <= k < |init| :: init[k] == items[k];
    }
  }

  /** One step of the fold, as `FoldSpcsIds` states it of the whole fold. */
  lemma SpcStepIds(acc: SpcTables, it: ConstraintItem, code: Dofs, setOffset: int, constraintOffset: int, n: int)
    ensures var r := SpcStep(acc, it, code, setOffset, constraintOffset).idsByNode;
      && (n in r <==> n in acc.idsByNode || Covers(it, n))
      && (forall s :: s in Row(r, n) <==> s in Row(acc.idsByNode, n) || (Covers(it, n) && setOffset + it.setId == s))
  {
  }

  /**
   * Applying an SPC node by node: one more node is the writer's update of
   * that node, a fresh entry when the node had none, else a union with it.
   */
  lemma OneMoreNodeDofs(dofs: map<int, Dofs>, c: Constraint, done: set<int>, n: int, code: Dofs)
    requires c.Spc? && n !in done
    ensures var m := DofsAtNodes(dofs, c, done, code);
      DofsAtNodes(dofs, c, done + {n}, code)
        == if n !in m then m[n := SpcDofsAt(c, n) * code] else m[n := (SpcDofsAt(c, n) * code) + m[n]]
  {
    var a := DofsAtNodes(dofs, c, done + {n}, code);
    var m := DofsAtNodes(dofs, c, done, code);
    var b := if n !in m then m[n := SpcDofsAt(c, n) * code] else m[n := (SpcDofsAt(c, n) * code) + m[n]];
    assert a.Keys == b.Keys;
    forall x | x in a.Keys ensures a[x] == b[x] {
      if x == n {
        assert DofsAt(m, n) == DofsAt(dofs, n);
      }
    }
  }

  /** Recording an SPC node by node: one more node is one more entry in that node's row. */
  lemma OneMoreNodeIds(ids: NodeTable, done: set<int>, n: int, key: int, value: int)
    requires n !in done
    ensures var m := IdsAtNodes(ids, done, key, value);
      IdsAtNodes(ids, done + {n}, key, value) == m[n := Row(m, n)[key := value]]
  {
    var a := IdsAtNodes(ids, done + {n}, key, value);
    var m := IdsAtNodes(ids, done, key, value);
    var b := m[n := Row(m, n)[key := value]];
    assert a.Keys == b.Keys;
    forall x | x in a.Keys ensures a[x] == b[x] {
      if x == n {
        assert Row(m, n) == Row(ids, n);
      }
    }
  }
}
