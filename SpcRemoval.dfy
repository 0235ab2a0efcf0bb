/**
 * Removing DOFs of one node from an SPC on behalf of one analysis.
 *
 * The SPC keeps constraining the other analyses that see it: the DOFs that
 * remain are moved to a new SPC placed in every constraint set that held the
 * original, and, when the model has at least two analyses, the removed DOFs
 * are moved to another new SPC in a new constraint set that every other
 * analysis seeing one of those sets receives. The original SPC then loses
 * the node. The analysis is designated by its position in the model.
 */
module SpcRemoval {
  import opened Wrappers
  import opened Dofs
  import opened References
  import opened Constraints
  import opened ModelState

  // ---------------------------------------------------------------------
  // What an analysis sees
  // ---------------------------------------------------------------------

  /** Analysis `v` sees constraint set `cs`: it is registered, and common or referenced by `v`. */
  predicate Sees(reg: Registry, v: AnalysisView, cs: ConstraintSetRef)
  {
    cs in reg.constraintSets && (cs == reg.commonConstraintSet || cs in v.constraintSetRefs)
  }

  /** Seeing a set is being one of the analysis's effective constraint sets. */
  lemma {:induction false} SeesIffEffective(reg: Registry, v: AnalysisView, cs: ConstraintSetRef)
    ensures Some(cs) in ConstraintSets(reg, v) <==> Sees(reg, v, cs)
  {
    var sets := ConstraintSets(reg, v);
    var off := CommonConstraintSetCount(reg);
    if Some(cs) in sets {
      var k :| 0 <= k < |sets| && sets[k] == Some(cs);
      if k >= off {
        assert v.constraintSetRefs[k - off] == cs;
      }
    }
    if Sees(reg, v, cs) {
      if cs == reg.commonConstraintSet {
        assert sets[0] == Some(cs);
      } else {
        var i :| 0 <= i < |v.constraintSetRefs| && v.constraintSetRefs[i] == cs;
        assert sets[off + i] == Some(cs);
      }
    }
  }

  /** The constraints an analysis sees through its effective constraint sets. */
  function Seen(reg: Registry, v: AnalysisView): set<int>
  {
    set id | id in reg.constraints && exists cs | cs in reg.constraintSets :: Sees(reg, v, cs) && id in MembersOf(reg, cs)
  }

  /** The seen constraints are exactly the constraints among the analysis's boundary conditions. */
  lemma SeenAreBoundaryConditions(reg: Registry, v: AnalysisView, id: int)
    ensures id in Seen(reg, v) <==> ConstraintBc(id) in BoundaryConditions(reg, v)
  {
    if id in Seen(reg, v) {
      var cs :| Sees(reg, v, cs) && id in MembersOf(reg, cs);
      SeesIffEffective(reg, v, cs);
    }
    if ConstraintBc(id) in BoundaryConditions(reg, v) {
      var cs :| Some(cs) in ConstraintSets(reg, v) && id in ResolvedConstraints(reg, cs);
      SeesIffEffective(reg, v, cs);
    }
  }

  /** The DOFs constraint `id` fixes at node `p`: an SPC's DOFs there, nothing for other constraints. */
  function Contribution(reg: Registry, id: int, p: int): Dofs
  {
    if id in reg.constraints && reg.constraints[id].Spc? then SpcDofsAt(reg.constraints[id], p) else NoDofs
  }

  /** The DOFs at node `p` that the SPCs seen by an analysis fix. */
  function VisibleDofs(reg: Registry, v: AnalysisView, p: int): Dofs
  {
    set d: Dof, id | id in Seen(reg, v) && d in Contribution(reg, id, p) :: d
  }

  /** The same, leaving constraint `x` out. */
  function VisibleDofsWithout(reg: Registry, v: AnalysisView, p: int, x: int): Dofs
  {
    set d: Dof, id | id in Seen(reg, v) && id != x && d in Contribution(reg, id, p) :: d
  }

  /** What a seen constraint adds to what the others fix. */
  lemma VisibleSplit(reg: Registry, v: AnalysisView, p: int, x: int)
    ensures VisibleDofs(reg, v, p) ==
      VisibleDofsWithout(reg, v, p, x) + (if x in Seen(reg, v) then Contribution(reg, x, p) else NoDofs)
  {
  }

  /** An analysis receives the new set when one of its effective constraint sets held the SPC. */
  predicate Qualifies(reg: Registry, v: AnalysisView, affected: set<ConstraintSetRef>)
  {
    exists cs | cs in affected :: Some(cs) in ConstraintSets(reg, v)
  }

  // ---------------------------------------------------------------------
  // The operation
  // ---------------------------------------------------------------------

  /** Adds constraint `id` into every set of `sets`. */
  function AddIntoAll(reg: Registry, id: int, sets: set<ConstraintSetRef>): Registry
  {
    reg.(constraintsBySet := map cs | cs in reg.constraintsBySet.Keys + sets ::
           if cs in sets then MembersOf(reg, cs) + {id} else reg.constraintsBySet[cs])
  }

  /** Every set of `sets` gains `id`, the others keep their members, and nothing else changes. */
  lemma AddIntoAllEffect(reg: Registry, id: int, sets: set<ConstraintSetRef>)
    ensures forall cs :: MembersOf(AddIntoAll(reg, id, sets), cs) == MembersOf(reg, cs) + (if cs in sets then {id} else {})
    ensures AddIntoAll(reg, id, sets).constraintsBySet.Keys == reg.constraintsBySet.Keys + sets
    ensures AddIntoAll(reg, id, sets) == reg.(constraintsBySet := AddIntoAll(reg, id, sets).constraintsBySet)
  {
  }

  lemma AddIntoNone(reg: Registry, id: int)
    ensures AddIntoAll(reg, id, {}) == reg
  {
    assert AddIntoAll(reg, id, {}).constraintsBySet == reg.constraintsBySet;
  }

  /** Adding into the sets one at a time, in any order, adds into all of them. */
  lemma AddIntoOneMore(reg: Registry, id: int, sets: set<ConstraintSetRef>, cs: ConstraintSetRef)
    ensures AddConstraintIntoConstraintSet(AddIntoAll(reg, id, sets), id, cs) == AddIntoAll(reg, id, sets + {cs})
  {
    var a := AddConstraintIntoConstraintSet(AddIntoAll(reg, id, sets), id, cs).constraintsBySet;
    var b := AddIntoAll(reg, id, sets + {cs}).constraintsBySet;
    assert a.Keys == b.Keys;
    forall x | x in a.Keys ensures a[x] == b[x] {
      assert MembersOf(AddIntoAll(reg, id, sets), x) == MembersOf(reg, x) + (if x in sets then {id} else {});
    }
    assert a == b;
  }

  /**
   * First step: when DOFs remain at the node, a new SPC with them, under
   * the next id, placed in every affected set.
   */
  function KeepRemaining(reg: Registry, n: int, remaining: Dofs, spc: Constraint,
                         affected: set<ConstraintSetRef>): Registry
    requires spc.Spc?
  {
    if remaining != {} then
      AddIntoAll(AddConstraint(reg, NewSpc(n, remaining, spc)), reg.nextConstraintId, affected)
    else reg
  }


  /** The first step registers the new SPC under the next id. */
  lemma KeepRemainingConstraints(reg: Registry, n: int, remaining: Dofs, spc: Constraint,
                                 affected: set<ConstraintSetRef>)
    requires spc.Spc?
    ensures var r := KeepRemaining(reg, n, remaining, spc, affected);
      && r.constraints == (if remaining != {} then reg.constraints[reg.nextConstraintId := NewSpc(n, remaining, spc)]
                           else reg.constraints)
      && r.nextConstraintId == reg.nextConstraintId + (if remaining != {} then 1 else 0)
  {
  }

  /** The first step adds the new SPC to the affected sets, and changes nothing else. */
  lemma KeepRemainingEffect(reg: Registry, n: int, remaining: Dofs, spc: Constraint,
                            affected: set<ConstraintSetRef>)
    requires spc.Spc?
    ensures var r := KeepRemaining(reg, n, remaining, spc, affected);
      && r.constraints == (if remaining != {} then reg.constraints[reg.nextConstraintId := NewSpc(n, remaining, spc)]
                           else reg.constraints)
      && r.nextConstraintId == reg.nextConstraintId + (if remaining != {} then 1 else 0)
      && (forall cs :: MembersOf(r, cs) ==
            MembersOf(reg, cs) + (if remaining != {} && cs in affected then {reg.nextConstraintId} else {}))
      && r.constraintsBySet.Keys == reg.constraintsBySet.Keys + (if remaining != {} then affected else {})
      && r == reg.(constraints := r.constraints, constraintsBySet := r.constraintsBySet,
                   nextConstraintId := r.nextConstraintId)
  {
    if remaining != {} {
      AddIntoAllEffect(AddConstraint(reg, NewSpc(n, remaining, spc)), reg.nextConstraintId, affected);
    }
  }

  /**
   * Second step, with two analyses or more: a new SPC set, and in it a new
   * SPC with the removed DOFs under the next id.
   */
  function MoveRemoved(reg: Registry, n: int, dofsToRemove: Dofs, spc: Constraint, multi: bool): Registry
    requires spc.Spc?
  {
    if multi then
      var withSet := AddConstraintSet(reg, SpcSet);
      var withSpc := AddConstraint(withSet, NewSpc(n, dofsToRemove, spc));
      AddConstraintIntoConstraintSet(withSpc, withSet.nextConstraintId, NextSetRef(reg, SpcSet))
    else reg
  }


  /** The second step registers a new SPC under the next id. */
  lemma MoveRemovedConstraints(reg: Registry, n: int, dofsToRemove: Dofs, spc: Constraint, multi: bool)
    requires spc.Spc?
    ensures var r := MoveRemoved(reg, n, dofsToRemove, spc, multi);
      && r.constraints == (if multi then reg.constraints[reg.nextConstraintId := NewSpc(n, dofsToRemove, spc)]
                           else reg.constraints)
      && r.nextConstraintId == reg.nextConstraintId + (if multi then 1 else 0)
  {
  }

  /** The second step registers a new SPC set holding only a new SPC under the next id. */
  lemma MoveRemovedEffect(reg: Registry, n: int, dofsToRemove: Dofs, spc: Constraint, multi: bool)
    requires spc.Spc?
    ensures var r := MoveRemoved(reg, n, dofsToRemove, spc, multi);
      && r.constraints == (if multi then reg.constraints[reg.nextConstraintId := NewSpc(n, dofsToRemove, spc)]
                           else reg.constraints)
      && r.nextConstraintId == reg.nextConstraintId + (if multi then 1 else 0)
      && r.constraintSets == reg.constraintSets + (if multi then {NextSetRef(reg, SpcSet)} else {})
      && r.nextSetSerial == reg.nextSetSerial + (if multi then 1 else 0)
      && (forall cs :: MembersOf(r, cs) ==
            if multi && cs == NextSetRef(reg, SpcSet) then {reg.nextConstraintId} else MembersOf(reg, cs))
      && r.constraintsBySet.Keys == reg.constraintsBySet.Keys + (if multi then {NextSetRef(reg, SpcSet)} else {})
      && r == reg.(constraints := r.constraints, constraintsBySet := r.constraintsBySet,
                   nextConstraintId := r.nextConstraintId, constraintSets := r.constraintSets,
                   nextSetSerial := r.nextSetSerial)
  {
  }

  /** The analyses after the new set `ns` is given to every other qualifying analysis. */
  function AttachToOthers(reg: Registry, views: seq<AnalysisView>, self: nat,
                          affected: set<ConstraintSetRef>, ns: ConstraintSetRef): seq<AnalysisView>
  {
    seq(|views|, k requires 0 <= k < |views| =>
      if k != self && Qualifies(reg, views[k], affected)
      then views[k].(constraintSetRefs := views[k].constraintSetRefs + [ns])
      else views[k])
  }

  /** Each analysis other than `self` that sees an affected set gets `ns` at the end; no other changes. */
  lemma AttachToOthersEffect(reg: Registry, views: seq<AnalysisView>, self: nat,
                             affected: set<ConstraintSetRef>, ns: ConstraintSetRef)
    ensures var r := AttachToOthers(reg, views, self, affected, ns);
      && |r| == |views|
      && forall k | 0 <= k < |views| ::
           r[k] == if k != self && Qualifies(reg, views[k], affected)
                   then views[k].(constraintSetRefs := views[k].constraintSetRefs + [ns])
                   else views[k]
  {
  }

  predicate Applicable(m: ModelView, self: nat, spcId: int)
  {
    self < |m.analyses| && spcId in m.reg.constraints && m.reg.constraints[spcId].Spc?
  }

  /** The registry after `dofsToRemove` at node `n` are removed from SPC `spcId`. */
  function RemovalReg(m: ModelView, spcId: int, n: int, dofsToRemove: Dofs): Registry
    requires spcId in m.reg.constraints && m.reg.constraints[spcId].Spc?
  {
    var spc := m.reg.constraints[spcId];
    var reg1 := KeepRemaining(m.reg, n, SpcDofsAt(spc, n) - dofsToRemove, spc, ConstraintSetsByConstraint(m.reg, spcId));
    var reg2 := MoveRemoved(reg1, n, dofsToRemove, spc, |m.analyses| >= 2);
    ReplaceConstraint(reg2, spcId, RemoveNode(spc, n))
  }

  /** The model after analysis `self` removes `dofsToRemove` at node `n` from SPC `spcId`. */
  function RemoveSpcNodeDofs(m: ModelView, self: nat, spcId: int, n: int, dofsToRemove: Dofs): ModelView
    requires Applicable(m, self, spcId)
  {
    var spc := m.reg.constraints[spcId];
    var affected := ConstraintSetsByConstraint(m.reg, spcId);
    var reg1 := KeepRemaining(m.reg, n, SpcDofsAt(spc, n) - dofsToRemove, spc, affected);
    var reg2 := MoveRemoved(reg1, n, dofsToRemove, spc, |m.analyses| >= 2);
    var views := if |m.analyses| >= 2 then AttachToOthers(reg2, m.analyses, self, affected, NextSetRef(reg1, SpcSet))
                 else m.analyses;
    ModelView(RemovalReg(m, spcId, n, dofsToRemove), views)
  }

  /** The result, from the registry and views after each step. */
  lemma Steps(m: ModelView, self: nat, spcId: int, n: int, dofsToRemove: Dofs,
              reg1: Registry, reg2: Registry, views: seq<AnalysisView>)
    requires Applicable(m, self, spcId)
    requires reg1 == KeepRemaining(m.reg, n, SpcDofsAt(m.reg.constraints[spcId], n) - dofsToRemove,
                                   m.reg.constraints[spcId], ConstraintSetsByConstraint(m.reg, spcId))
    requires reg2 == MoveRemoved(reg1, n, dofsToRemove, m.reg.constraints[spcId], |m.analyses| >= 2)
    requires views == if |m.analyses| >= 2
                      then AttachToOthers(reg2, m.analyses, self, ConstraintSetsByConstraint(m.reg, spcId),
                                          NextSetRef(reg1, SpcSet))
                      else m.analyses
    ensures RemoveSpcNodeDofs(m, self, spcId, n, dofsToRemove) ==
            ModelView(ReplaceConstraint(reg2, spcId, RemoveNode(m.reg.constraints[spcId], n)), views)
  {
  }

  // ---------------------------------------------------------------------
  // Names for the pieces of the result
  // ---------------------------------------------------------------------

  function RemainingDofs(m: ModelView, spcId: int, n: int, dofsToRemove: Dofs): Dofs
    requires spcId in m.reg.constraints && m.reg.constraints[spcId].Spc?
  {
    SpcDofsAt(m.reg.constraints[spcId], n) - dofsToRemove
  }

  /** The id of the SPC with the remaining DOFs, when there are any. */
  function RemainingId(m: ModelView): int
  {
    m.reg.nextConstraintId
  }

  /** The id of the SPC with the removed DOFs, when there are two analyses or more. */
  function OthersId(m: ModelView, spcId: int, n: int, dofsToRemove: Dofs): int
    requires spcId in m.reg.constraints && m.reg.constraints[spcId].Spc?
  {
    m.reg.nextConstraintId + (if RemainingDofs(m, spcId, n, dofsToRemove) != {} then 1 else 0)
  }

  /** The new constraint set for the other analyses. */
  function OthersSet(m: ModelView): ConstraintSetRef
  {
    Reference(SpcSet, Auto(m.reg.nextSetSerial))
  }

  function Affected(m: ModelView, spcId: int): set<ConstraintSetRef>
  {
    ConstraintSetsByConstraint(m.reg, spcId)
  }

  /** Analysis `k` sees, through one of its effective sets, a set that held the original SPC. */
  predicate SeesSpc(m: ModelView, k: nat, spcId: int)
    requires k < |m.analyses|
  {
    Qualifies(m.reg, m.analyses[k], Affected(m, spcId))
  }

  // ---------------------------------------------------------------------
  // The effect in closed form
  // ---------------------------------------------------------------------

  /** The new constraint table: the node cut from the SPC, and the new SPCs under fresh ids. */
  lemma EffectOnConstraints(m: ModelView, self: nat, spcId: int, n: int, dofsToRemove: Dofs)
    requires Applicable(m, self, spcId) && (forall id | id in m.reg.constraints :: id < m.reg.nextConstraintId)
    ensures var r := RemovalReg(m, spcId, n, dofsToRemove);
      var spc := m.reg.constraints[spcId];
      var rem := RemainingDofs(m, spcId, n, dofsToRemove);
      var multi := |m.analyses| >= 2;
      && r.constraints.Keys == m.reg.constraints.Keys
           + (if rem != {} then {RemainingId(m)} else {})
           + (if multi then {OthersId(m, spcId, n, dofsToRemove)} else {})
      && r.constraints[spcId] == RemoveNode(spc, n)
      && (rem != {} ==> r.constraints[RemainingId(m)] == NewSpc(n, rem, spc))
      && (multi ==> r.constraints[OthersId(m, spcId, n, dofsToRemove)] == NewSpc(n, dofsToRemove, spc))
      && (forall id | id in m.reg.constraints && id != spcId :: r.constraints[id] == m.reg.constraints[id])
      && r.nextConstraintId == OthersId(m, spcId, n, dofsToRemove) + (if multi then 1 else 0)
  {
    var spc := m.reg.constraints[spcId];
    var rem := RemainingDofs(m, spcId, n, dofsToRemove);
    var multi := |m.analyses| >= 2;
    var reg1 := KeepRemaining(m.reg, n, rem, spc, Affected(m, spcId));
    var reg2 := MoveRemoved(reg1, n, dofsToRemove, spc, multi);
    RemovalRegConstraints(m, spcId, n, dofsToRemove);
    ConstraintsAfterSteps(m.reg, reg1, reg2, spcId, RemoveNode(spc, n), NewSpc(n, rem, spc),
                          NewSpc(n, dofsToRemove, spc), rem != {}, multi);
  }

  /** The ids of the constraint table after the change. */
  lemma ConstraintKeysAfter(m: ModelView, self: nat, spcId: int, n: int, dofsToRemove: Dofs)
    requires Applicable(m, self, spcId) && (forall id | id in m.reg.constraints :: id < m.reg.nextConstraintId)
    ensures RemovalReg(m, spcId, n, dofsToRemove).constraints.Keys == m.reg.constraints.Keys
      + (if RemainingDofs(m, spcId, n, dofsToRemove) != {} then {RemainingId(m)} else {})
      + (if |m.analyses| >= 2 then {OthersId(m, spcId, n, dofsToRemove)} else {})
  {
    EffectOnConstraints(m, self, spcId, n, dofsToRemove);
  }

  /** The constraint table and next id after the steps, in terms of the intermediate registries. */
  lemma RemovalRegConstraints(m: ModelView, spcId: int, n: int, dofsToRemove: Dofs)
    requires spcId in m.reg.constraints && m.reg.constraints[spcId].Spc?
    ensures var spc := m.reg.constraints[spcId];
      var rem := RemainingDofs(m, spcId, n, dofsToRemove);
      var multi := |m.analyses| >= 2;
      var reg1 := KeepRemaining(m.reg, n, rem, spc, Affected(m, spcId));
      var reg2 := MoveRemoved(reg1, n, dofsToRemove, spc, multi);
      var r := RemovalReg(m, spcId, n, dofsToRemove);
      && reg1.constraints == (if rem != {} then m.reg.constraints[m.reg.nextConstraintId := NewSpc(n, rem, spc)]
                              else m.reg.constraints)
      && reg1.nextConstraintId == m.reg.nextConstraintId + (if rem != {} then 1 else 0)
      && reg2.constraints == (if multi then reg1.constraints[reg1.nextConstraintId := NewSpc(n, dofsToRemove, spc)]
                              else reg1.constraints)
      && reg2.nextConstraintId == reg1.nextConstraintId + (if multi then 1 else 0)
      && r.constraints == reg2.constraints[spcId := RemoveNode(spc, n)]
      && r.nextConstraintId == reg2.nextConstraintId
      && OthersId(m, spcId, n, dofsToRemove) == reg1.nextConstraintId
  {
    var spc := m.reg.constraints[spcId];
    var rem := RemainingDofs(m, spcId, n, dofsToRemove);
    var reg1 := KeepRemaining(m.reg, n, rem, spc, Affected(m, spcId));
    KeepRemainingConstraints(m.reg, n, rem, spc, Affected(m, spcId));
    MoveRemovedConstraints(reg1, n, dofsToRemove, spc, |m.analyses| >= 2);
  }

  /** The constraint table after adding up to two constraints under the next ids and replacing one. */
  lemma ConstraintsAfterSteps(reg: Registry, reg1: Registry, reg2: Registry, x: int, cx: Constraint,
                              c1: Constraint, c2: Constraint, keep: bool, multi: bool)
    requires forall id | id in reg.constraints :: id < reg.nextConstraintId
    requires x in reg.constraints
    requires reg1.constraints == if keep then reg.constraints[reg.nextConstraintId := c1] else reg.constraints
    requires reg1.nextConstraintId == reg.nextConstraintId + (if keep then 1 else 0)
    requires reg2.constraints == if multi then reg1.constraints[reg1.nextConstraintId := c2] else reg1.constraints
    requires reg2.nextConstraintId == reg1.nextConstraintId + (if multi then 1 else 0)
    ensures var t := reg2.constraints[x := cx];
      && t.Keys == reg.constraints.Keys + (if keep then {reg.nextConstraintId} else {})
                   + (if multi then {reg1.nextConstraintId} else {})
      && t[x] == cx
      && (keep ==> t[reg.nextConstraintId] == c1)
      && (multi ==> t[reg1.nextConstraintId] == c2)
      && (forall id | id in reg.constraints && id != x :: t[id] == reg.constraints[id])
  {
  }

  /** The registered sets; nothing in the registry beyond constraints and sets changes. */
  lemma EffectOnSets(m: ModelView, self: nat, spcId: int, n: int, dofsToRemove: Dofs)
    requires Applicable(m, self, spcId)
    ensures var r := RemovalReg(m, spcId, n, dofsToRemove);
      && r.constraintSets == m.reg.constraintSets + (if |m.analyses| >= 2 then {OthersSet(m)} else {})
      && r.nextSetSerial == m.reg.nextSetSerial + (if |m.analyses| >= 2 then 1 else 0)
      && r.commonConstraintSet == m.reg.commonConstraintSet
      && r.loadSets == m.reg.loadSets && r.loadings == m.reg.loadings
      && r.loadingsBySet == m.reg.loadingsBySet && r.objectives == m.reg.objectives
      && r.coordinateSystems == m.reg.coordinateSystems && r.values == m.reg.values
      && r.commonLoadSet == m.reg.commonLoadSet
  {
    var spc := m.reg.constraints[spcId];
    var reg1 := KeepRemaining(m.reg, n, RemainingDofs(m, spcId, n, dofsToRemove), spc, Affected(m, spcId));
    KeepRemainingEffect(m.reg, n, RemainingDofs(m, spcId, n, dofsToRemove), spc, Affected(m, spcId));
    MoveRemovedEffect(reg1, n, dofsToRemove, spc, |m.analyses| >= 2);
  }

  /**
   * The memberships: the remaining SPC joins every set that held the
   * original, the removed DOFs' SPC is alone in the new set, and no other
   * set changes.
   */
  lemma EffectOnMembers(m: ModelView, self: nat, spcId: int, n: int, dofsToRemove: Dofs, cs: ConstraintSetRef)
    requires Applicable(m, self, spcId) && OthersSet(m) !in m.reg.constraintsBySet
    ensures var r := RemovalReg(m, spcId, n, dofsToRemove);
      var rem := RemainingDofs(m, spcId, n, dofsToRemove);
      MembersOf(r, cs) == MembersOf(m.reg, cs)
        + (if rem != {} && cs in Affected(m, spcId) then {RemainingId(m)} else {})
        + (if |m.analyses| >= 2 && cs == OthersSet(m) then {OthersId(m, spcId, n, dofsToRemove)} else {})
  {
    var spc := m.reg.constraints[spcId];
    var rem := RemainingDofs(m, spcId, n, dofsToRemove);
    var affected := Affected(m, spcId);
    var reg1 := KeepRemaining(m.reg, n, rem, spc, affected);
    KeepRemainingMembers(m.reg, n, rem, spc, affected, cs);
    KeepRemainingConstraints(m.reg, n, rem, spc, affected);
    MoveRemovedMembers(reg1, n, dofsToRemove, spc, |m.analyses| >= 2, cs);
    var reg2 := MoveRemoved(reg1, n, dofsToRemove, spc, |m.analyses| >= 2);
    assert MembersOf(RemovalReg(m, spcId, n, dofsToRemove), cs) == MembersOf(reg2, cs);
    assert NextSetRef(reg1, SpcSet) == OthersSet(m);
    assert OthersId(m, spcId, n, dofsToRemove) == reg1.nextConstraintId;
    if cs == OthersSet(m) {
      assert MembersOf(m.reg, cs) == {} && cs !in affected;
    }
    AddedInTurn(MembersOf(reg2, cs), MembersOf(reg1, cs), MembersOf(m.reg, cs), RemainingId(m),
                OthersId(m, spcId, n, dofsToRemove), rem != {} && cs in affected,
                |m.analyses| >= 2 && cs == OthersSet(m));
  }

  /** A set that gains `x`, then is replaced by `{y}` only when it was empty and did not gain `x`. */
  lemma AddedInTurn(after: set<int>, mid: set<int>, base: set<int>, x: int, y: int, gainsX: bool, isY: bool)
    requires mid == base + (if gainsX then {x} else {})
    requires after == if isY then {y} else mid
    requires isY ==> base == {} && !gainsX
    ensures after == base + (if gainsX then {x} else {}) + (if isY then {y} else {})
  {
  }

  /** The members of one set after the first step. */
  lemma KeepRemainingMembers(reg: Registry, n: int, remaining: Dofs, spc: Constraint,
                             affected: set<ConstraintSetRef>, cs: ConstraintSetRef)
    requires spc.Spc?
    ensures var r := KeepRemaining(reg, n, remaining, spc, affected);
      && MembersOf(r, cs) == MembersOf(reg, cs) + (if remaining != {} && cs in affected then {reg.nextConstraintId} else {})
      && r.nextSetSerial == reg.nextSetSerial
  {
  }

  /** The members of one set after the second step. */
  lemma MoveRemovedMembers(reg: Registry, n: int, dofsToRemove: Dofs, spc: Constraint, multi: bool,
                           cs: ConstraintSetRef)
    requires spc.Spc?
    ensures MembersOf(MoveRemoved(reg, n, dofsToRemove, spc, multi), cs) ==
      if multi && cs == NextSetRef(reg, SpcSet) then {reg.nextConstraintId} else MembersOf(reg, cs)
  {
  }

  /** In a valid model the next set reference is fresh everywhere. */
  lemma FreshSet(m: ModelView)
    requires Valid(m)
    ensures OthersSet(m) !in m.reg.constraintsBySet && OthersSet(m) !in m.reg.constraintSets
    ensures OthersSet(m) != m.reg.commonConstraintSet
    ensures forall k | 0 <= k < |m.analyses| :: OthersSet(m) !in m.analyses[k].constraintSetRefs
  {
    forall k | 0 <= k < |m.analyses| ensures OthersSet(m) !in m.analyses[k].constraintSetRefs {
      assert forall r | r in m.analyses[k].constraintSetRefs :: AutoBelow(r, m.reg.nextSetSerial);
    }
  }

  /**
   * The analyses: with two or more, every analysis other than `self` that
   * sees the SPC receives the new set at the end of its references; no other
   * reference of any analysis changes.
   */
  lemma {:induction false} EffectOnAnalyses(m: ModelView, self: nat, spcId: int, n: int, dofsToRemove: Dofs)
    requires Valid(m) && Applicable(m, self, spcId)
    ensures var r := RemoveSpcNodeDofs(m, self, spcId, n, dofsToRemove);
      && |r.analyses| == |m.analyses|
      && (forall k | 0 <= k < |m.analyses| ::
            r.analyses[k] == if |m.analyses| >= 2 && k != self && SeesSpc(m, k, spcId)
                             then m.analyses[k].(constraintSetRefs := m.analyses[k].constraintSetRefs + [OthersSet(m)])
                             else m.analyses[k])
  {
    var spc := m.reg.constraints[spcId];
    var affected := Affected(m, spcId);
    var reg1 := KeepRemaining(m.reg, n, SpcDofsAt(spc, n) - dofsToRemove, spc, affected);
    var ns := NextSetRef(reg1, SpcSet);
    assert ns == OthersSet(m);
    if |m.analyses| >= 2 {
      var reg2 := MoveRemoved(reg1, n, dofsToRemove, spc, true);
      AttachToOthersEffect(reg2, m.analyses, self, affected, ns);
      forall k | 0 <= k < |m.analyses|
        ensures Qualifies(reg2, m.analyses[k], affected) == SeesSpc(m, k, spcId)
      {
        assert ns !in m.analyses[k].constraintSetRefs by {
          assert forall r | r in m.analyses[k].constraintSetRefs :: AutoBelow(r, m.reg.nextSetSerial);
        }
        QualifiesStable(m, reg2, k, affected);
      }
    }
  }

  /** Registering the new set does not change which analyses qualify. */
  lemma QualifiesStable(m: ModelView, reg2: Registry, k: nat, affected: set<ConstraintSetRef>)
    requires k < |m.analyses|
    requires affected <= m.reg.constraintSets
    requires reg2.commonConstraintSet == m.reg.commonConstraintSet
    requires m.reg.constraintSets <= reg2.constraintSets
    requires forall cs | cs in reg2.constraintSets - m.reg.constraintSets ::
      cs !in m.analyses[k].constraintSetRefs && cs != m.reg.commonConstraintSet
    ensures Qualifies(reg2, m.analyses[k], affected) == Qualifies(m.reg, m.analyses[k], affected)
  {
    var v := m.analyses[k];
    if Qualifies(reg2, v, affected) {
      var cs :| cs in affected && Some(cs) in ConstraintSets(reg2, v);
      SeesIffEffective(reg2, v, cs);
      SeesIffEffective(m.reg, v, cs);
    }
    if Qualifies(m.reg, v, affected) {
      var cs :| cs in affected && Some(cs) in ConstraintSets(m.reg, v);
      SeesIffEffective(reg2, v, cs);
      SeesIffEffective(m.reg, v, cs);
    }
  }
  /** An analysis sees the SPC exactly when one of its effective sets held it. */
  lemma SeesSpcIffSeen(m: ModelView, k: nat, spcId: int)
    requires k < |m.analyses| && spcId in m.reg.constraints
    ensures SeesSpc(m, k, spcId) <==> spcId in Seen(m.reg, m.analyses[k])
  {
    var v := m.analyses[k];
    if SeesSpc(m, k, spcId) {
      var cs :| cs in Affected(m, spcId) && Some(cs) in ConstraintSets(m.reg, v);
      SeesIffEffective(m.reg, v, cs);
    }
    if spcId in Seen(m.reg, v) {
      var cs :| cs in m.reg.constraintSets && Sees(m.reg, v, cs) && spcId in MembersOf(m.reg, cs);
      SeesIffEffective(m.reg, v, cs);
    }
  }

  /** The sets each analysis sees afterwards: the same ones, plus the new set for the others that saw the SPC. */
  lemma SeesAfter(m: ModelView, self: nat, spcId: int, n: int, dofsToRemove: Dofs, k: nat, cs: ConstraintSetRef)
    requires Valid(m) && Applicable(m, self, spcId) && k < |m.analyses|
    ensures var r := RemoveSpcNodeDofs(m, self, spcId, n, dofsToRemove);
      Sees(r.reg, r.analyses[k], cs) <==>
        Sees(m.reg, m.analyses[k], cs) || (k != self && SeesSpc(m, k, spcId) && cs == OthersSet(m))
  {
    EffectOnSets(m, self, spcId, n, dofsToRemove);
    EffectOnAnalyses(m, self, spcId, n, dofsToRemove);
    FreshSet(m);
  }

  /** A constraint seen afterwards was seen before, or is one of the new SPCs, seen as stated. */
  lemma {:induction false} SeenAfterForward(m: ModelView, self: nat, spcId: int, n: int, dofsToRemove: Dofs, k: nat, id: int)
    requires Valid(m) && Applicable(m, self, spcId) && k < |m.analyses|
    requires id in Seen(RemoveSpcNodeDofs(m, self, spcId, n, dofsToRemove).reg,
                        RemoveSpcNodeDofs(m, self, spcId, n, dofsToRemove).analyses[k])
    ensures || id in Seen(m.reg, m.analyses[k])
            || (RemainingDofs(m, spcId, n, dofsToRemove) != {} && SeesSpc(m, k, spcId) && id == RemainingId(m))
            || (k != self && SeesSpc(m, k, spcId) && id == OthersId(m, spcId, n, dofsToRemove))
  {
    var r := RemoveSpcNodeDofs(m, self, spcId, n, dofsToRemove);
    var cs :| cs in r.reg.constraintSets && Sees(r.reg, r.analyses[k], cs) && id in MembersOf(r.reg, cs);
    SeenThroughSet(m, self, spcId, n, dofsToRemove, k, id, cs);
  }

  /** The case analysis of the previous lemma, for the set `cs` through which `id` is seen. */
  lemma SeenThroughSet(m: ModelView, self: nat, spcId: int, n: int, dofsToRemove: Dofs, k: nat, id: int,
                       cs: ConstraintSetRef)
    requires Valid(m) && Applicable(m, self, spcId) && k < |m.analyses|
    requires var r := RemoveSpcNodeDofs(m, self, spcId, n, dofsToRemove);
      id in r.reg.constraints && Sees(r.reg, r.analyses[k], cs) && id in MembersOf(r.reg, cs)
    ensures || id in Seen(m.reg, m.analyses[k])
            || (RemainingDofs(m, spcId, n, dofsToRemove) != {} && SeesSpc(m, k, spcId) && id == RemainingId(m))
            || (k != self && SeesSpc(m, k, spcId) && id == OthersId(m, spcId, n, dofsToRemove))
  {
    var v := m.analyses[k];
    SeesAfter(m, self, spcId, n, dofsToRemove, k, cs);
    EffectOnMembers(m, self, spcId, n, dofsToRemove, cs);
    ConstraintKeysAfter(m, self, spcId, n, dofsToRemove);
    FreshSet(m);
    if cs == OthersSet(m) {
      assert id == OthersId(m, spcId, n, dofsToRemove);
    } else if id in MembersOf(m.reg, cs) {
      assert id < m.reg.nextConstraintId;
    } else {
      assert id == RemainingId(m) && cs in Affected(m, spcId);
      SeesIffEffective(m.reg, v, cs);
    }
  }

  /** Everything seen before stays seen, and each new SPC is seen as stated. */
  lemma {:induction false} SeenAfterBackward(m: ModelView, self: nat, spcId: int, n: int, dofsToRemove: Dofs, k: nat, id: int)
    requires Valid(m) && Applicable(m, self, spcId) && k < |m.analyses|
    requires || id in Seen(m.reg, m.analyses[k])
            || (RemainingDofs(m, spcId, n, dofsToRemove) != {} && SeesSpc(m, k, spcId) && id == RemainingId(m))
            || (k != self && SeesSpc(m, k, spcId) && id == OthersId(m, spcId, n, dofsToRemove))
    ensures id in Seen(RemoveSpcNodeDofs(m, self, spcId, n, dofsToRemove).reg,
                       RemoveSpcNodeDofs(m, self, spcId, n, dofsToRemove).analyses[k])
  {
    var r := RemoveSpcNodeDofs(m, self, spcId, n, dofsToRemove);
    var v := m.analyses[k];
    var ns := OthersSet(m);
    EffectOnConstraints(m, self, spcId, n, dofsToRemove);
    EffectOnSets(m, self, spcId, n, dofsToRemove);
    if id in Seen(m.reg, v) {
      var cs :| cs in m.reg.constraintSets && Sees(m.reg, v, cs) && id in MembersOf(m.reg, cs);
      SeesAfter(m, self, spcId, n, dofsToRemove, k, cs);
      EffectOnMembers(m, self, spcId, n, dofsToRemove, cs);
    } else if RemainingDofs(m, spcId, n, dofsToRemove) != {} && SeesSpc(m, k, spcId) && id == RemainingId(m) {
      var cs :| cs in Affected(m, spcId) && Some(cs) in ConstraintSets(m.reg, v);
      SeesIffEffective(m.reg, v, cs);
      SeesAfter(m, self, spcId, n, dofsToRemove, k, cs);
      EffectOnMembers(m, self, spcId, n, dofsToRemove, cs);
    } else {
      SeesAfter(m, self, spcId, n, dofsToRemove, k, ns);
      EffectOnMembers(m, self, spcId, n, dofsToRemove, ns);
    }
  }
  /** What each constraint fixes afterwards: the node is cut from the SPC, the new SPCs fix only that node. */
  lemma ContributionAfter(m: ModelView, self: nat, spcId: int, n: int, dofsToRemove: Dofs, id: int, p: int)
    requires Valid(m) && Applicable(m, self, spcId)
    ensures Contribution(RemoveSpcNodeDofs(m, self, spcId, n, dofsToRemove).reg, id, p) ==
      if id == spcId then (if p == n then NoDofs else Contribution(m.reg, spcId, p))
      else if id in m.reg.constraints then Contribution(m.reg, id, p)
      else if RemainingDofs(m, spcId, n, dofsToRemove) != {} && id == RemainingId(m) then
        (if p == n then RemainingDofs(m, spcId, n, dofsToRemove) else NoDofs)
      else if |m.analyses| >= 2 && id == OthersId(m, spcId, n, dofsToRemove) then
        (if p == n then dofsToRemove else NoDofs)
      else NoDofs
  {
    EffectOnConstraints(m, self, spcId, n, dofsToRemove);
  }

  /** Away from the node, no analysis sees any change. */
  lemma {:induction false} VisibleElsewhere(m: ModelView, self: nat, spcId: int, n: int, dofsToRemove: Dofs, k: nat, p: int)
    requires Valid(m) && Applicable(m, self, spcId) && k < |m.analyses| && p != n
    ensures var r := RemoveSpcNodeDofs(m, self, spcId, n, dofsToRemove);
      VisibleDofs(r.reg, r.analyses[k], p) == VisibleDofs(m.reg, m.analyses[k], p)
  {
    var r := RemoveSpcNodeDofs(m, self, spcId, n, dofsToRemove);
    forall d ensures d in VisibleDofs(r.reg, r.analyses[k], p) <==> d in VisibleDofs(m.reg, m.analyses[k], p) {
      if d in VisibleDofs(r.reg, r.analyses[k], p) {
        var id :| id in Seen(r.reg, r.analyses[k]) && d in Contribution(r.reg, id, p);
        SeenAfterForward(m, self, spcId, n, dofsToRemove, k, id);
        ContributionAfter(m, self, spcId, n, dofsToRemove, id, p);
      }
      if d in VisibleDofs(m.reg, m.analyses[k], p) {
        var id :| id in Seen(m.reg, m.analyses[k]) && d in Contribution(m.reg, id, p);
        SeenAfterBackward(m, self, spcId, n, dofsToRemove, k, id);
        ContributionAfter(m, self, spcId, n, dofsToRemove, id, p);
      }
    }
  }

  /** The DOFs fixed at the node afterwards, as `VisibleAtNode` states them. */
  function AtNodeAfter(m: ModelView, self: nat, spcId: int, n: int, dofsToRemove: Dofs, k: nat): Dofs
    requires Applicable(m, self, spcId) && k < |m.analyses|
  {
    VisibleDofsWithout(m.reg, m.analyses[k], n, spcId)
    + (if SeesSpc(m, k, spcId)
       then RemainingDofs(m, spcId, n, dofsToRemove) + (if k != self then dofsToRemove else NoDofs)
       else NoDofs)
  }

  lemma {:induction false} AtNodeForward(m: ModelView, self: nat, spcId: int, n: int, dofsToRemove: Dofs, k: nat, d: Dof)
    requires Valid(m) && Applicable(m, self, spcId) && k < |m.analyses|
    requires d in VisibleDofs(RemoveSpcNodeDofs(m, self, spcId, n, dofsToRemove).reg,
                              RemoveSpcNodeDofs(m, self, spcId, n, dofsToRemove).analyses[k], n)
    ensures d in AtNodeAfter(m, self, spcId, n, dofsToRemove, k)
  {
    var r := RemoveSpcNodeDofs(m, self, spcId, n, dofsToRemove);
    var id :| id in Seen(r.reg, r.analyses[k]) && d in Contribution(r.reg, id, n);
    SeenAfterForward(m, self, spcId, n, dofsToRemove, k, id);
    ContributionAfter(m, self, spcId, n, dofsToRemove, id, n);
    FreshIds(m, spcId, n, dofsToRemove);
  }

  lemma {:induction false} AtNodeBackward(m: ModelView, self: nat, spcId: int, n: int, dofsToRemove: Dofs, k: nat, d: Dof)
    requires Valid(m) && Applicable(m, self, spcId) && k < |m.analyses|
    requires d in AtNodeAfter(m, self, spcId, n, dofsToRemove, k)
    ensures d in VisibleDofs(RemoveSpcNodeDofs(m, self, spcId, n, dofsToRemove).reg,
                             RemoveSpcNodeDofs(m, self, spcId, n, dofsToRemove).analyses[k], n)
  {
    var v := m.analyses[k];
    var rem := RemainingDofs(m, spcId, n, dofsToRemove);
    FreshIds(m, spcId, n, dofsToRemove);
    if d in VisibleDofsWithout(m.reg, v, n, spcId) {
      var id :| id in Seen(m.reg, v) && id != spcId && d in Contribution(m.reg, id, n);
      SeenAfterBackward(m, self, spcId, n, dofsToRemove, k, id);
      ContributionAfter(m, self, spcId, n, dofsToRemove, id, n);
    } else if d in rem {
      SeenAfterBackward(m, self, spcId, n, dofsToRemove, k, RemainingId(m));
      ContributionAfter(m, self, spcId, n, dofsToRemove, RemainingId(m), n);
    } else {
      var oid := OthersId(m, spcId, n, dofsToRemove);
      assert |m.analyses| >= 2;
      SeenAfterBackward(m, self, spcId, n, dofsToRemove, k, oid);
      ContributionAfter(m, self, spcId, n, dofsToRemove, oid, n);
    }
  }

  /** The ids of the new SPCs are fresh and distinct from each other. */
  lemma FreshIds(m: ModelView, spcId: int, n: int, dofsToRemove: Dofs)
    requires Valid(m) && spcId in m.reg.constraints && m.reg.constraints[spcId].Spc?
    ensures RemainingId(m) !in m.reg.constraints && OthersId(m, spcId, n, dofsToRemove) !in m.reg.constraints
    ensures RemainingDofs(m, spcId, n, dofsToRemove) != {} ==> RemainingId(m) != OthersId(m, spcId, n, dofsToRemove)
  {
  }

  /**
   * At the node, an analysis keeps what its other constraints fix; if it saw
   * the SPC it also gets the remaining DOFs, and, when it is not the analysis
   * that asked, the removed DOFs too.
   */
  lemma {:induction false} VisibleAtNode(m: ModelView, self: nat, spcId: int, n: int, dofsToRemove: Dofs, k: nat)
    requires Valid(m) && Applicable(m, self, spcId) && k < |m.analyses|
    ensures var r := RemoveSpcNodeDofs(m, self, spcId, n, dofsToRemove);
      VisibleDofs(r.reg, r.analyses[k], n) == AtNodeAfter(m, self, spcId, n, dofsToRemove, k)
  {
    var r := RemoveSpcNodeDofs(m, self, spcId, n, dofsToRemove);
    forall d ensures d in VisibleDofs(r.reg, r.analyses[k], n) <==> d in AtNodeAfter(m, self, spcId, n, dofsToRemove, k) {
      if d in VisibleDofs(r.reg, r.analyses[k], n) {
        AtNodeForward(m, self, spcId, n, dofsToRemove, k, d);
      }
      if d in AtNodeAfter(m, self, spcId, n, dofsToRemove, k) {
        AtNodeBackward(m, self, spcId, n, dofsToRemove, k, d);
      }
    }
  }

  /**
   * The promise to the other analyses: every DOF they saw fixed at the node
   * stays fixed, and when the removed DOFs were all fixed by the SPC, they
   * see exactly what they saw before.
   */
  /** Before the change, what an analysis sees at a node, with the SPC's part apart. */
  lemma VisibleBefore(m: ModelView, k: nat, spcId: int, n: int)
    requires k < |m.analyses| && spcId in m.reg.constraints && m.reg.constraints[spcId].Spc?
    ensures VisibleDofs(m.reg, m.analyses[k], n) ==
      VisibleDofsWithout(m.reg, m.analyses[k], n, spcId)
      + (if SeesSpc(m, k, spcId) then SpcDofsAt(m.reg.constraints[spcId], n) else NoDofs)
  {
    VisibleSplit(m.reg, m.analyses[k], n, spcId);
    SeesSpcIffSeen(m, k, spcId);
  }

  lemma {:induction false} OthersKeepTheirDofs(m: ModelView, self: nat, spcId: int, n: int, dofsToRemove: Dofs, k: nat)
    requires Valid(m) && Applicable(m, self, spcId) && k < |m.analyses| && k != self
    ensures var r := RemoveSpcNodeDofs(m, self, spcId, n, dofsToRemove);
      && VisibleDofs(r.reg, r.analyses[k], n) ==
           VisibleDofs(m.reg, m.analyses[k], n) + (if SeesSpc(m, k, spcId) then dofsToRemove else NoDofs)
      && (dofsToRemove <= SpcDofsAt(m.reg.constraints[spcId], n) ==>
           VisibleDofs(r.reg, r.analyses[k], n) == VisibleDofs(m.reg, m.analyses[k], n))
  {
    VisibleAtNode(m, self, spcId, n, dofsToRemove, k);
    VisibleBefore(m, k, spcId, n);
    var r := RemoveSpcNodeDofs(m, self, spcId, n, dofsToRemove);
    SplitAgain(VisibleDofs(r.reg, r.analyses[k], n), VisibleDofs(m.reg, m.analyses[k], n),
               VisibleDofsWithout(m.reg, m.analyses[k], n, spcId), SpcDofsAt(m.reg.constraints[spcId], n),
               dofsToRemove, SeesSpc(m, k, spcId));
  }

  /** Taking `d` out of a part and giving it back adds `d` to the whole. */
  lemma SplitAgain(after: Dofs, before: Dofs, others: Dofs, fixed: Dofs, d: Dofs, sees: bool)
    requires after == others + (if sees then (fixed - d) + d else NoDofs)
    requires before == others + (if sees then fixed else NoDofs)
    ensures after == before + (if sees then d else NoDofs)
    ensures d <= fixed ==> after == before
  {
  }

  /**
   * The promise to the analysis that asked: at the node it keeps what its
   * other constraints fix, and from this SPC only the DOFs not removed.
   */
  lemma {:induction false} SelfLosesRemovedDofs(m: ModelView, self: nat, spcId: int, n: int, dofsToRemove: Dofs)
    requires Valid(m) && Applicable(m, self, spcId)
    ensures var r := RemoveSpcNodeDofs(m, self, spcId, n, dofsToRemove);
      && VisibleDofs(r.reg, r.analyses[self], n) ==
           VisibleDofsWithout(m.reg, m.analyses[self], n, spcId)
           + (if SeesSpc(m, self, spcId) then SpcDofsAt(m.reg.constraints[spcId], n) - dofsToRemove else NoDofs)
      && SpcDofsAt(r.reg.constraints[spcId], n) == NoDofs
  {
    VisibleAtNode(m, self, spcId, n, dofsToRemove, self);
    EffectOnConstraints(m, self, spcId, n, dofsToRemove);
  }
  /**
   * Where the SPCs sit afterwards: the original and the remaining SPC in
   * exactly the sets that held the original, the removed DOFs' SPC in the
   * new set alone.
   */
  lemma {:induction false} MembershipAfter(m: ModelView, self: nat, spcId: int, n: int, dofsToRemove: Dofs)
    requires Valid(m) && Applicable(m, self, spcId)
    ensures var r := RemoveSpcNodeDofs(m, self, spcId, n, dofsToRemove);
      && ConstraintSetsByConstraint(r.reg, spcId) == Affected(m, spcId)
      && (RemainingDofs(m, spcId, n, dofsToRemove) != {} ==>
            ConstraintSetsByConstraint(r.reg, RemainingId(m)) == Affected(m, spcId))
      && (|m.analyses| >= 2 ==>
            ConstraintSetsByConstraint(r.reg, OthersId(m, spcId, n, dofsToRemove)) == {OthersSet(m)})
  {
    var r := RemoveSpcNodeDofs(m, self, spcId, n, dofsToRemove);
    var rem := RemainingDofs(m, spcId, n, dofsToRemove);
    var rid := RemainingId(m);
    var oid := OthersId(m, spcId, n, dofsToRemove);
    EffectOnSets(m, self, spcId, n, dofsToRemove);
    FreshSet(m);
    FreshIds(m, spcId, n, dofsToRemove);
    forall cs ensures cs in ConstraintSetsByConstraint(r.reg, spcId) <==> cs in Affected(m, spcId) {
      EffectOnMembers(m, self, spcId, n, dofsToRemove, cs);
    }
    if rem != {} {
      forall cs ensures cs in ConstraintSetsByConstraint(r.reg, rid) <==> cs in Affected(m, spcId) {
        EffectOnMembers(m, self, spcId, n, dofsToRemove, cs);
        assert rid !in MembersOf(m.reg, cs);
      }
    }
    if |m.analyses| >= 2 {
      forall cs ensures cs in ConstraintSetsByConstraint(r.reg, oid) <==> cs == OthersSet(m) {
        EffectOnMembers(m, self, spcId, n, dofsToRemove, cs);
        assert oid !in MembersOf(m.reg, cs);
      }
    }
  }

  lemma {:induction false} RegistryValidAfter(m: ModelView, self: nat, spcId: int, n: int, dofsToRemove: Dofs)
    requires Valid(m) && Applicable(m, self, spcId)
    ensures RegistryValid(RemoveSpcNodeDofs(m, self, spcId, n, dofsToRemove).reg)
  {
    IdsBelowAfter(m, self, spcId, n, dofsToRemove);
    MembersBelowAfter(m, self, spcId, n, dofsToRemove);
    RegisteredBelowAfter(m, self, spcId, n, dofsToRemove);
    SetsBelowAfter(m, self, spcId, n, dofsToRemove);
  }

  /** Every registered constraint id is still below the next one. */
  lemma IdsBelowAfter(m: ModelView, self: nat, spcId: int, n: int, dofsToRemove: Dofs)
    requires Valid(m) && Applicable(m, self, spcId)
    ensures var r := RemoveSpcNodeDofs(m, self, spcId, n, dofsToRemove).reg;
      forall id | id in r.constraints :: id < r.nextConstraintId
  {
    EffectOnConstraints(m, self, spcId, n, dofsToRemove);
  }

  /** Every registered set, and the common one, still has an automatic serial below the next one, if any. */
  lemma RegisteredBelowAfter(m: ModelView, self: nat, spcId: int, n: int, dofsToRemove: Dofs)
    requires Valid(m) && Applicable(m, self, spcId)
    ensures var r := RemoveSpcNodeDofs(m, self, spcId, n, dofsToRemove).reg;
      && (forall cs | cs in r.constraintSets :: AutoBelow(cs, r.nextSetSerial))
      && AutoBelow(r.commonConstraintSet, r.nextSetSerial)
  {
    EffectOnSets(m, self, spcId, n, dofsToRemove);
  }

  /** Every member of every set is still an id handed out. */
  lemma MembersBelowAfter(m: ModelView, self: nat, spcId: int, n: int, dofsToRemove: Dofs)
    requires Valid(m) && Applicable(m, self, spcId)
    ensures var r := RemoveSpcNodeDofs(m, self, spcId, n, dofsToRemove).reg;
      forall cs, id | cs in r.constraintsBySet && id in r.constraintsBySet[cs] :: id < r.nextConstraintId
  {
    var r := RemoveSpcNodeDofs(m, self, spcId, n, dofsToRemove).reg;
    EffectOnConstraints(m, self, spcId, n, dofsToRemove);
    forall cs, id | cs in r.constraintsBySet && id in r.constraintsBySet[cs]
      ensures id < r.nextConstraintId
    {
      EffectOnMembers(m, self, spcId, n, dofsToRemove, cs);
      assert id in MembersOf(r, cs);
    }
  }

  /** Every indexed set still has an automatic serial below the next one, if any. */
  lemma SetsBelowAfter(m: ModelView, self: nat, spcId: int, n: int, dofsToRemove: Dofs)
    requires Valid(m) && Applicable(m, self, spcId)
    ensures var r := RemoveSpcNodeDofs(m, self, spcId, n, dofsToRemove).reg;
      forall cs | cs in r.constraintsBySet :: AutoBelow(cs, r.nextSetSerial)
  {
    var r := RemoveSpcNodeDofs(m, self, spcId, n, dofsToRemove).reg;
    var spc := m.reg.constraints[spcId];
    var reg1 := KeepRemaining(m.reg, n, RemainingDofs(m, spcId, n, dofsToRemove), spc, Affected(m, spcId));
    var reg2 := MoveRemoved(reg1, n, dofsToRemove, spc, |m.analyses| >= 2);
    assert r.constraintsBySet == reg2.constraintsBySet;
    forall cs | cs in r.constraintsBySet ensures AutoBelow(cs, r.nextSetSerial) {
      if cs in m.reg.constraintsBySet {
        assert AutoBelow(cs, m.reg.nextSetSerial);
      }
    }
  }

  lemma {:induction false} RefsValidAfter(m: ModelView, self: nat, spcId: int, n: int, dofsToRemove: Dofs)
    requires Valid(m) && Applicable(m, self, spcId)
    ensures var r := RemoveSpcNodeDofs(m, self, spcId, n, dofsToRemove);
      forall k, ref | 0 <= k < |r.analyses| && ref in r.analyses[k].constraintSetRefs ::
        AutoBelow(ref, r.reg.nextSetSerial)
  {
    var r := RemoveSpcNodeDofs(m, self, spcId, n, dofsToRemove);
    EffectOnSets(m, self, spcId, n, dofsToRemove);
    EffectOnAnalyses(m, self, spcId, n, dofsToRemove);
    forall k, ref | 0 <= k < |r.analyses| && ref in r.analyses[k].constraintSetRefs
      ensures AutoBelow(ref, r.reg.nextSetSerial)
    {
      if ref !in m.analyses[k].constraintSetRefs {
        assert ref == OthersSet(m);
      } else {
        assert AutoBelow(ref, m.reg.nextSetSerial);
      }
    }
  }

  /** The ids the model hands out stay fresh. */
  lemma ValidPreserved(m: ModelView, self: nat, spcId: int, n: int, dofsToRemove: Dofs)
    requires Valid(m) && Applicable(m, self, spcId)
    ensures Valid(RemoveSpcNodeDofs(m, self, spcId, n, dofsToRemove))
  {
    RegistryValidAfter(m, self, spcId, n, dofsToRemove);
    RefsValidAfter(m, self, spcId, n, dofsToRemove);
  }
}
