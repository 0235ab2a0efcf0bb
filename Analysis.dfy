/**
 * Analyses as the objects the translator updates in place: an analysis
 * lists load sets, constraint sets and assertions by reference, records
 * boundary DOFs per node, and answers queries by resolving its references
 * in the model it belongs to.
 *
 * The model is represented by a `Model` object holding the registry value
 * and the analyses in order; only the registry operations the analysis
 * layer calls are given, each with the contract it relies on.
 */
module Analyses {
  import opened Wrappers
  import opened Dofs
  import opened References
  import opened Collections
  import opened Constraints
  import opened Loadings
  import opened Objectives
  import opened ModelState
  import SpcRemoval

  class Model {
    var reg: Registry
    var analyses: seq<Analysis>

    constructor (reg0: Registry)
      ensures reg == reg0 && analyses == []
    {
      reg := reg0;
      analyses := [];
    }

    /** The model with every analysis seen as a value. */
    ghost function View(): ModelView
      reads this, analyses
    {
      ModelView(reg, ViewsOf(analyses))
    }

    /** The analyses belong to this model, each once, and the ids the model hands out are fresh. */
    ghost predicate Valid()
      reads this, analyses
    {
      && (forall i | 0 <= i < |analyses| :: analyses[i].model == this)
      && (forall i, j | 0 <= i < j < |analyses| :: analyses[i] != analyses[j])
      && ModelState.Valid(View())
    }

    method AddAnalysis(a: Analysis)
      requires a.model == this
      modifies this
      ensures reg == old(reg) && analyses == old(analyses) + [a]
    {
      analyses := analyses + [a];
    }

    /** Registers a constraint under the next free id and returns that id. */
    method AddConstraint(c: Constraint) returns (id: int)
      modifies this
      ensures id == old(reg.nextConstraintId)
      ensures reg == ModelState.AddConstraint(old(reg), c) && analyses == old(analyses)
    {
      id := reg.nextConstraintId;
      reg := ModelState.AddConstraint(reg, c);
    }

    /** Registers a new, empty constraint set and returns its reference. */
    method AddConstraintSet(t: ConstraintSetType) returns (r: ConstraintSetRef)
      modifies this
      ensures r == NextSetRef(old(reg), t)
      ensures reg == ModelState.AddConstraintSet(old(reg), t) && analyses == old(analyses)
    {
      r := NextSetRef(reg, t);
      reg := ModelState.AddConstraintSet(reg, t);
    }

    method AddConstraintIntoConstraintSet(id: int, cs: ConstraintSetRef)
      modifies this
      ensures reg == ModelState.AddConstraintIntoConstraintSet(old(reg), id, cs) && analyses == old(analyses)
    {
      reg := ModelState.AddConstraintIntoConstraintSet(reg, id, cs);
    }

    method ReplaceConstraint(id: int, c: Constraint)
      modifies this
      ensures reg == ModelState.ReplaceConstraint(old(reg), id, c) && analyses == old(analyses)
    {
      reg := ModelState.ReplaceConstraint(reg, id, c);
    }
  }

  /** The position of an analysis in a sequence of analyses; the analyses are distinct where it matters. */
  ghost function Position(s: seq<Analysis>, a: Analysis): (k: nat)
    requires a in s
    ensures k < |s| && s[k] == a
  {
    var k :| 0 <= k < |s| && s[k] == a;
    k
  }

  /** The value view of each analysis, in order. */
  ghost function ViewsOf(s: seq<Analysis>): (vs: seq<AnalysisView>)
    reads s
    ensures |vs| == |s| && forall i | 0 <= i < |s| :: vs[i] == s[i].View()
  {
    if s == [] then [] else ViewsOf(s[..|s| - 1]) + [s[|s| - 1].View()]
  }

  class Analysis {
    const model: Model
    const originalId: int
    const kind: AnalysisKind
    var loadSetRefs: seq<LoadSetRef>
    var constraintSetRefs: seq<ConstraintSetRef>
    var assertionRefs: seq<ObjectiveRef>
    var boundaryDofs: map<int, Dofs>

    constructor (model: Model, kind: AnalysisKind, originalId: int)
      ensures this.model == model && this.kind == kind && this.originalId == originalId
      ensures loadSetRefs == [] && constraintSetRefs == [] && assertionRefs == [] && boundaryDofs == map[]
    {
      this.model := model;
      this.kind := kind;
      this.originalId := originalId;
      loadSetRefs := [];
      constraintSetRefs := [];
      assertionRefs := [];
      boundaryDofs := map[];
    }

    function View(): AnalysisView
      reads this
    {
      AnalysisView(originalId, kind, loadSetRefs, constraintSetRefs, assertionRefs, boundaryDofs)
    }

    // -------------------------------------------------------------------
    // References
    // -------------------------------------------------------------------

    method AddLoadSet(r: LoadSetRef)
      modifies this
      ensures loadSetRefs == old(loadSetRefs) + [r]
      ensures constraintSetRefs == old(constraintSetRefs) && assertionRefs == old(assertionRefs)
      ensures boundaryDofs == old(boundaryDofs)
    {
      loadSetRefs := loadSetRefs + [r];
    }

    method AddConstraintSet(r: ConstraintSetRef)
      modifies this
      ensures constraintSetRefs == old(constraintSetRefs) + [r]
      ensures loadSetRefs == old(loadSetRefs) && assertionRefs == old(assertionRefs)
      ensures boundaryDofs == old(boundaryDofs)
    {
      constraintSetRefs := constraintSetRefs + [r];
    }

    method AddAssertion(r: ObjectiveRef)
      modifies this
      ensures assertionRefs == old(assertionRefs) + [r]
      ensures loadSetRefs == old(loadSetRefs) && constraintSetRefs == old(constraintSetRefs)
      ensures boundaryDofs == old(boundaryDofs)
    {
      assertionRefs := assertionRefs + [r];
    }

    /** Erases the first occurrence of the reference; nothing when it is absent. */
    method RemoveLoadSet(r: LoadSetRef)
      modifies this
      ensures loadSetRefs == RemoveFirst(old(loadSetRefs), r)
      ensures constraintSetRefs == old(constraintSetRefs) && assertionRefs == old(assertionRefs)
      ensures boundaryDofs == old(boundaryDofs)
    {
      var i := FirstIndex(loadSetRefs, r);
      if i < 0 {
        RemoveFirstAbsent(loadSetRefs, r);
      } else {
        RemoveFirstAt(loadSetRefs, r, i);
        loadSetRefs := loadSetRefs[..i] + loadSetRefs[i + 1..];
      }
    }

    method RemoveConstraintSet(r: ConstraintSetRef)
      modifies this
      ensures constraintSetRefs == RemoveFirst(old(constraintSetRefs), r)
      ensures loadSetRefs == old(loadSetRefs) && assertionRefs == old(assertionRefs)
      ensures boundaryDofs == old(boundaryDofs)
    {
      var i := FirstIndex(constraintSetRefs, r);
      if i < 0 {
        RemoveFirstAbsent(constraintSetRefs, r);
      } else {
        RemoveFirstAt(constraintSetRefs, r, i);
        constraintSetRefs := constraintSetRefs[..i] + constraintSetRefs[i + 1..];
      }
    }

    method RemoveAssertion(r: ObjectiveRef)
      modifies this
      ensures assertionRefs == RemoveFirst(old(assertionRefs), r)
      ensures loadSetRefs == old(loadSetRefs) && constraintSetRefs == old(constraintSetRefs)
      ensures boundaryDofs == old(boundaryDofs)
    {
      var i := FirstIndex(assertionRefs, r);
      if i < 0 {
        RemoveFirstAbsent(assertionRefs, r);
      } else {
        RemoveFirstAt(assertionRefs, r, i);
        assertionRefs := assertionRefs[..i] + assertionRefs[i + 1..];
      }
    }

    method ContainsLoadSet(r: LoadSetRef) returns (found: bool)
      ensures found <==> r in loadSetRefs
    {
      found := Contains(loadSetRefs, r);
    }

    method ContainsConstraintSet(r: ConstraintSetRef) returns (found: bool)
      ensures found <==> r in constraintSetRefs
    {
      found := Contains(constraintSetRefs, r);
    }

    method ContainsAssertion(r: ObjectiveRef) returns (found: bool)
      ensures found <==> r in assertionRefs
    {
      found := Contains(assertionRefs, r);
    }

    // -------------------------------------------------------------------
    // Queries resolving references in the model
    // -------------------------------------------------------------------

    method GetLoadSets() returns (sets: seq<Option<LoadSetRef>>)
      ensures sets == LoadSets(model.reg, View())
    {
      var reg := model.reg;
      var refs := loadSetRefs;
      sets := if reg.commonLoadSet in reg.loadSets then [Some(reg.commonLoadSet)] else [];
      var off := |sets|;
      var i := 0;
      while i < |refs|
        invariant 0 <= i <= |refs| && |sets| == off + i
        invariant off == CommonLoadSetCount(reg) && (off == 1 ==> sets[0] == Some(reg.commonLoadSet))
        invariant forall t | 0 <= t < i :: sets[off + t] == FindLoadSet(reg, refs[t])
      {
        sets := sets + [FindLoadSet(reg, refs[i])];
        i := i + 1;
      }
      LoadSetsByEntries(reg, View(), sets);
    }

    method GetConstraintSets() returns (sets: seq<Option<ConstraintSetRef>>)
      ensures sets == ConstraintSets(model.reg, View())
    {
      var reg := model.reg;
      var refs := constraintSetRefs;
      sets := if reg.commonConstraintSet in reg.constraintSets then [Some(reg.commonConstraintSet)] else [];
      var off := |sets|;
      var i := 0;
      while i < |refs|
        invariant 0 <= i <= |refs| && |sets| == off + i
        invariant off == CommonConstraintSetCount(reg) && (off == 1 ==> sets[0] == Some(reg.commonConstraintSet))
        invariant forall t | 0 <= t < i :: sets[off + t] == FindConstraintSet(reg, refs[t])
      {
        sets := sets + [FindConstraintSet(reg, refs[i])];
        i := i + 1;
      }
      ConstraintSetsByEntries(reg, View(), sets);
    }

    /** One entry per assertion reference: the assertion it finds, None where it finds none. */
    method GetAssertions() returns (result: seq<Option<Objective>>)
      ensures result == Assertions(model.reg, View())
    {
      result := [];
      var i := 0;
      while i < |assertionRefs|
        invariant 0 <= i <= |assertionRefs|
        invariant result == Assertions(model.reg, View())[..i]
      {
        result := result + [AssertionOf(model.reg, assertionRefs[i])];
        i := i + 1;
      }
    }

    /** The constraints of every effective constraint set, then the loadings of every effective load set. */
    method GetBoundaryConditions() returns (bcs: seq<BoundaryCondition>)
      ensures bcs == BoundaryConditions(model.reg, View())
    {
      var constraintSets := GetConstraintSets();
      var loadSets := GetLoadSets();
      var constraints := CollectConstraints(model.reg, constraintSets);
      var loadings := CollectLoadings(model.reg, loadSets);
      bcs := constraints + loadings;
    }

    /** No effective set may be missing, and the parameters of the kind must resolve. */
    method Validate() returns (valid: bool)
      ensures valid == IsValid(model.reg, View())
    {
      var constraintSets := GetConstraintSets();
      var missing := Contains(constraintSets, None);
      if missing {
        return false;
      }
      var loadSets := GetLoadSets();
      missing := Contains(loadSets, None);
      if missing {
        return false;
      }
      valid := ParametersResolve(model.reg, kind);
    }

    // -------------------------------------------------------------------
    // Boundary DOFs
    // -------------------------------------------------------------------

    method AddBoundaryDofs(n: int, dofs: Dofs)
      modifies this
      ensures boundaryDofs == ModelState.AddBoundaryDofs(old(boundaryDofs), n, dofs)
      ensures loadSetRefs == old(loadSetRefs) && constraintSetRefs == old(constraintSetRefs)
      ensures assertionRefs == old(assertionRefs)
    {
      boundaryDofs := boundaryDofs[n := ModelState.FindBoundaryDofs(boundaryDofs, n) + dofs];
    }

    method FindBoundaryDofs(n: int) returns (dofs: Dofs)
      ensures n in boundaryDofs ==> dofs == boundaryDofs[n]
      ensures n !in boundaryDofs ==> dofs == NoDofs
    {
      if n in boundaryDofs {
        dofs := boundaryDofs[n];
      } else {
        dofs := NoDofs;
      }
    }

    /** The nodes that have boundary DOFs recorded, collected entry by entry. */
    method BoundaryNodePositions() returns (nodes: set<int>)
      ensures nodes == boundaryDofs.Keys
    {
      nodes := {};
      var todo := boundaryDofs.Keys;
      while todo != {}
        invariant todo <= boundaryDofs.Keys
        invariant nodes == boundaryDofs.Keys - todo
        decreases |todo|
      {
        ghost var some := Collections.Pick(todo);
        var n :| n in todo;
        nodes := nodes + {n};
        todo := todo - {n};
      }
    }

    // -------------------------------------------------------------------
    // Removing DOFs of a node from an SPC
    // -------------------------------------------------------------------

    /**
     * Removes `dofsToRemove` at node `n` from SPC `spcId` for this analysis,
     * keeping the other analyses constrained as before.
     */
    method RemoveSpcNodeDofs(spcId: int, n: int, dofsToRemove: Dofs)
      requires model.Valid() && this in model.analyses
      requires spcId in model.reg.constraints && model.reg.constraints[spcId].Spc?
      modifies model, model.analyses
      ensures model.analyses == old(model.analyses)
      ensures model.View() == SpcRemoval.RemoveSpcNodeDofs(old(model.View()), Position(model.analyses, this),
                                                           spcId, n, dofsToRemove)
      ensures model.Valid()
    {
      ghost var m0 := model.View();
      ApplyRemoval(spcId, n, dofsToRemove);
      SpcRemoval.ValidPreserved(m0, Position(model.analyses, this), spcId, n, dofsToRemove);
    }

    /** The steps of the removal, in the order the registry and the analyses are updated. */
    method ApplyRemoval(spcId: int, n: int, dofsToRemove: Dofs)
      requires this in model.analyses
      requires forall i | 0 <= i < |model.analyses| :: model.analyses[i].model == model
      requires forall i, j | 0 <= i < j < |model.analyses| :: model.analyses[i] != model.analyses[j]
      requires spcId in model.reg.constraints && model.reg.constraints[spcId].Spc?
      modifies model, model.analyses
      ensures model.analyses == old(model.analyses)
      ensures model.View() == SpcRemoval.RemoveSpcNodeDofs(old(model.View()), Position(model.analyses, this),
                                                           spcId, n, dofsToRemove)
    {
      ghost var m0 := model.View();
      ghost var self := Position(model.analyses, this);
      var spc := model.reg.constraints[spcId];
      var remaining := SpcDofsAt(spc, n) - dofsToRemove;
      var affected := ConstraintSetsByConstraint(model.reg, spcId);
      KeepRemaining(spc, n, remaining, affected);
      ghost var m1 := model.View();
      if |model.analyses| >= 2 {
        ShareRemoved(spc, n, dofsToRemove, affected, self);
      }
      ghost var m2 := model.View();
      assert m2 == (if |m0.analyses| >= 2
                    then ModelView(SpcRemoval.MoveRemoved(m1.reg, n, dofsToRemove, spc, true),
                                   SpcRemoval.AttachToOthers(SpcRemoval.MoveRemoved(m1.reg, n, dofsToRemove, spc, true),
                                                             m0.analyses, self, affected, NextSetRef(m1.reg, SpcSet)))
                    else m1);
      ReplaceInModel(spcId, RemoveNode(spc, n));
      SpcRemoval.Steps(m0, self, spcId, n, dofsToRemove, m1.reg, m2.reg, m2.analyses);
    }

    /** Replaces a constraint of the registry; the analyses are untouched. */
    method ReplaceInModel(id: int, c: Constraint)
      modifies model
      ensures model.analyses == old(model.analyses)
      ensures model.View() == old(model.View()).(reg := ModelState.ReplaceConstraint(old(model.reg), id, c))
    {
      model.ReplaceConstraint(id, c);
    }

    /**
     * With two analyses or more: the removed DOFs go into a new SPC in a new
     * set, which every other analysis seeing an affected set receives.
     */
    method ShareRemoved(spc: Constraint, n: int, dofsToRemove: Dofs, affected: set<ConstraintSetRef>, ghost self: nat)
      requires spc.Spc?
      requires self < |model.analyses| && model.analyses[self] == this
      requires forall i | 0 <= i < |model.analyses| :: model.analyses[i].model == model
      requires forall i, j | 0 <= i < j < |model.analyses| :: model.analyses[i] != model.analyses[j]
      modifies model, model.analyses
      ensures model.analyses == old(model.analyses)
      ensures var reg2 := SpcRemoval.MoveRemoved(old(model.reg), n, dofsToRemove, spc, true);
        model.View() == ModelView(reg2, SpcRemoval.AttachToOthers(reg2, old(model.View()).analyses, self, affected,
                                                                  NextSetRef(old(model.reg), SpcSet)))
    {
      ghost var before := ViewsOf(model.analyses);
      var ns := MoveRemoved(spc, n, dofsToRemove);
      assert ViewsOf(model.analyses) == before;
      ghost var reg2 := model.reg;
      AttachToOthers(ns, affected, model.reg, before, self);
      assert model.reg == reg2;
    }

    /** When DOFs remain, registers an SPC with them and adds it to every affected set. */
    method KeepRemaining(spc: Constraint, n: int, remaining: Dofs, affected: set<ConstraintSetRef>)
      requires spc.Spc?
      modifies model
      ensures model.reg == SpcRemoval.KeepRemaining(old(model.reg), n, remaining, spc, affected)
      ensures model.analyses == old(model.analyses)
      ensures model.View() == old(model.View()).(reg := model.reg)
    {
      if remaining != {} {
        var rid := model.AddConstraint(NewSpc(n, remaining, spc));
        AddIntoSets(rid, affected);
      }
    }

    /** Adds constraint `id` into each of `sets`, one at a time. */
    method AddIntoSets(id: int, sets: set<ConstraintSetRef>)
      modifies model
      ensures model.reg == SpcRemoval.AddIntoAll(old(model.reg), id, sets)
      ensures model.analyses == old(model.analyses)
    {
      ghost var reg0 := model.reg;
      SpcRemoval.AddIntoNone(reg0, id);
      var done: set<ConstraintSetRef> := {};
      while done != sets
        invariant done <= sets
        invariant model.reg == SpcRemoval.AddIntoAll(reg0, id, done)
        invariant model.analyses == old(model.analyses)
        decreases |sets - done|
      {
        var cs :| cs in sets - done;
        AddIntoOneMore(reg0, id, done, cs);
        done := done + {cs};
      }
    }

    /** One turn of `AddIntoSets`: after the sets in `done`, constraint `id` goes into `cs` too. */
    method AddIntoOneMore(ghost reg0: Registry, id: int, ghost done: set<ConstraintSetRef>, cs: ConstraintSetRef)
      requires model.reg == SpcRemoval.AddIntoAll(reg0, id, done)
      modifies model
      ensures model.reg == SpcRemoval.AddIntoAll(reg0, id, done + {cs})
      ensures model.analyses == old(model.analyses)
    {
      SpcRemoval.AddIntoOneMore(reg0, id, done, cs);
      model.AddConstraintIntoConstraintSet(id, cs);
    }

    /** Registers a new SPC set holding a new SPC with the removed DOFs; returns the set. */
    method MoveRemoved(spc: Constraint, n: int, dofsToRemove: Dofs) returns (ns: ConstraintSetRef)
      requires spc.Spc?
      modifies model
      ensures ns == NextSetRef(old(model.reg), SpcSet)
      ensures model.reg == SpcRemoval.MoveRemoved(old(model.reg), n, dofsToRemove, spc, true)
      ensures model.analyses == old(model.analyses)
    {
      ns := model.AddConstraintSet(SpcSet);
      var oid := model.AddConstraint(NewSpc(n, dofsToRemove, spc));
      model.AddConstraintIntoConstraintSet(oid, ns);
    }

    /**
     * Gives `ns` to every other analysis of the model one of whose effective
     * sets is affected; `reg`, `before` and `self` name the registry, the
     * analyses' values and this analysis' position on entry.
     */
    method AttachToOthers(ns: ConstraintSetRef, affected: set<ConstraintSetRef>,
                          ghost reg: Registry, ghost before: seq<AnalysisView>, ghost self: nat)
      requires model.reg == reg && ViewsOf(model.analyses) == before
      requires self < |model.analyses| && model.analyses[self] == this
      requires forall i | 0 <= i < |model.analyses| :: model.analyses[i].model == model
      requires forall i, j | 0 <= i < j < |model.analyses| :: model.analyses[i] != model.analyses[j]
      modifies model.analyses
      ensures ViewsOf(model.analyses) == SpcRemoval.AttachToOthers(reg, before, self, affected, ns)
    {
      ghost var views := SpcRemoval.AttachToOthers(reg, before, self, affected, ns);
      SpcRemoval.AttachToOthersEffect(reg, before, self, affected, ns);
      var k := 0;
      while k < |model.analyses|
        invariant 0 <= k <= |model.analyses|
        invariant forall j | 0 <= j < k :: model.analyses[j].View() == views[j]
        invariant forall j | k <= j < |model.analyses| :: model.analyses[j].View() == before[j]
      {
        var other := model.analyses[k];
        assert other == this <==> k == self;
        forall j | 0 <= j < |model.analyses| && j != k ensures model.analyses[j] != other {
          if j < k {} else {}
        }
        if other != this {
          other.AttachIfSees(ns, affected);
        }
        k := k + 1;
      }
    }

    /** Takes `ns` when one of the effective constraint sets is among `affected`. */
    method AttachIfSees(ns: ConstraintSetRef, affected: set<ConstraintSetRef>)
      modifies this
      ensures View() == if SpcRemoval.Qualifies(model.reg, old(View()), affected)
                        then old(View()).(constraintSetRefs := old(View()).constraintSetRefs + [ns])
                        else old(View())
    {
      var found := SeesAnyOf(affected);
      if found {
        AddConstraintSet(ns);
      }
    }

    /** Whether one of the effective constraint sets is among `affected`. */
    method SeesAnyOf(affected: set<ConstraintSetRef>) returns (found: bool)
      ensures found == SpcRemoval.Qualifies(model.reg, View(), affected)
    {
      var sets := GetConstraintSets();
      found := false;
      var j := 0;
      while j < |sets| && !found
        invariant 0 <= j <= |sets|
        invariant found <==> exists i | 0 <= i < j :: sets[i].Some? && sets[i].value in affected
      {
        if sets[j].Some? && sets[j].value in affected {
          found := true;
        }
        j := j + 1;
      }
      if found {
        var i :| 0 <= i < j && sets[i].Some? && sets[i].value in affected;
        assert sets[i] in sets;
      }
      if SpcRemoval.Qualifies(model.reg, View(), affected) {
        var cs :| cs in affected && Some(cs) in sets;
        var i :| 0 <= i < |sets| && sets[i] == Some(cs);
      }
    }
  }

  /** The non-null constraints of the non-null sets, set after set. */
  method CollectConstraints(reg: Registry, sets: seq<Option<ConstraintSetRef>>) returns (bcs: seq<BoundaryCondition>)
    ensures bcs == ConstraintBcsOf(ConstraintIds(reg, sets))
  {
    bcs := [];
    var i := 0;
    while i < |sets|
      invariant 0 <= i <= |sets|
      invariant bcs == ConstraintBcsOf(ConstraintIds(reg, sets[..i]))
    {
      ConstraintIdsStep(reg, sets[..i + 1]);
      assert sets[..i + 1][..i] == sets[..i];
      if sets[i].Some? {
        var ids := Sorted(ResolvedConstraints(reg, sets[i].value));
        TaggedAppend(ConstraintIds(reg, sets[..i]), ids);
        bcs := AppendConstraints(bcs, ids);
      }
      i := i + 1;
    }
    assert sets[..i] == sets;
  }

  /** The non-null loadings of the non-null load sets, set after set. */
  method CollectLoadings(reg: Registry, sets: seq<Option<LoadSetRef>>) returns (bcs: seq<BoundaryCondition>)
    ensures bcs == LoadingBcsOf(LoadingIds(reg, sets))
  {
    bcs := [];
    var i := 0;
    while i < |sets|
      invariant 0 <= i <= |sets|
      invariant bcs == LoadingBcsOf(LoadingIds(reg, sets[..i]))
    {
      LoadingIdsStep(reg, sets[..i + 1]);
      assert sets[..i + 1][..i] == sets[..i];
      if sets[i].Some? {
        var ids := Sorted(ResolvedLoadings(reg, sets[i].value));
        TaggedAppend(LoadingIds(reg, sets[..i]), ids);
        bcs := AppendLoadings(bcs, ids);
      }
      i := i + 1;
    }
    assert sets[..i] == sets;
  }

  /** Pushes each constraint of one set, in order. */
  method AppendConstraints(bcs0: seq<BoundaryCondition>, ids: seq<int>) returns (bcs: seq<BoundaryCondition>)
    ensures bcs == bcs0 + ConstraintBcsOf(ids)
  {
    bcs := bcs0;
    var j := 0;
    while j < |ids|
      invariant 0 <= j <= |ids|
      invariant bcs == bcs0 + ConstraintBcsOf(ids[..j])
    {
      TaggedStep(ids[..j], ids[j]);
      assert ids[..j + 1] == ids[..j] + [ids[j]];
      bcs := bcs + [ConstraintBc(ids[j])];
      j := j + 1;
    }
    assert ids[..j] == ids;
  }

  /** Pushes each loading of one set, in order. */
  method AppendLoadings(bcs0: seq<BoundaryCondition>, ids: seq<int>) returns (bcs: seq<BoundaryCondition>)
    ensures bcs == bcs0 + LoadingBcsOf(ids)
  {
    bcs := bcs0;
    var j := 0;
    while j < |ids|
      invariant 0 <= j <= |ids|
      invariant bcs == bcs0 + LoadingBcsOf(ids[..j])
    {
      TaggedStep(ids[..j], ids[j]);
      assert ids[..j + 1] == ids[..j] + [ids[j]];
      bcs := bcs + [LoadingBc(ids[j])];
      j := j + 1;
    }
    assert ids[..j] == ids;
  }
}
