/**
 * The model's registry and the analysis queries over it, as values.
 *
 * The Model class body is not part of this model. It is represented by a
 * `Registry`: the registered load sets and constraint sets, the loadings,
 * constraints and objectives by internal id or reference, the inverse
 * membership indexes from a set to its members, the two common sets, and
 * the allocators for the ids the model hands out itself. An analysis is
 * seen through an `AnalysisView` of its reference lists and boundary DOFs.
 *
 * The iteration order of a std::set of shared pointers (pointer order) is
 * modelled as ascending internal id.
 */
module ModelState {
  import opened Wrappers
  import opened Dofs
  import opened References
  import opened Collections
  import opened Constraints
  import opened Loadings
  import opened Objectives

  datatype Registry = Registry(
    loadSets: set<LoadSetRef>,
    loadings: map<int, Loading>,
    loadingsBySet: map<LoadSetRef, set<int>>,
    constraintSets: set<ConstraintSetRef>,
    constraints: map<int, Constraint>,
    constraintsBySet: map<ConstraintSetRef, set<int>>,
    objectives: map<ObjectiveRef, Objective>,
    coordinateSystems: set<int>,
    values: map<ValueRef, ValueType>,
    commonLoadSet: LoadSetRef,
    commonConstraintSet: ConstraintSetRef,
    nextConstraintId: nat,
    nextSetSerial: nat)

  // ---------------------------------------------------------------------
  // Lookups
  // ---------------------------------------------------------------------

  function FindLoadSet(reg: Registry, r: LoadSetRef): Option<LoadSetRef>
  {
    if r in reg.loadSets then Some(r) else None
  }

  function FindConstraintSet(reg: Registry, r: ConstraintSetRef): Option<ConstraintSetRef>
  {
    if r in reg.constraintSets then Some(r) else None
  }

  /** The reference finds an objective, and that objective has the expected type. */
  predicate ObjectiveResolves(reg: Registry, r: ObjectiveRef, t: ObjectiveType)
  {
    r in reg.objectives && Objectives.Type(reg.objectives[r]) == t
  }

  /** The non-null constraints of a constraint set. */
  function ResolvedConstraints(reg: Registry, cs: ConstraintSetRef): set<int>
  {
    if cs in reg.constraintsBySet then
      set id | id in reg.constraintsBySet[cs] && id in reg.constraints
    else
      {}
  }

  /** The non-null loadings of a load set. */
  function ResolvedLoadings(reg: Registry, ls: LoadSetRef): (ids: set<int>)
    ensures forall id :: id in ids <==> Some(id) in GetLoadings(reg.loadingsBySet, reg.loadings, ls)
  {
    if ls in reg.loadingsBySet then
      set id | id in reg.loadingsBySet[ls] && id in reg.loadings
    else
      {}
  }

  /** The registered constraint sets that hold constraint `id`. */
  function ConstraintSetsByConstraint(reg: Registry, id: int): set<ConstraintSetRef>
  {
    set cs | cs in reg.constraintSets && cs in reg.constraintsBySet && id in reg.constraintsBySet[cs]
  }

  // ---------------------------------------------------------------------
  // The model's own mutators, as used by the analysis layer
  // ---------------------------------------------------------------------

  /** Registers a constraint under the next free id. */
  function AddConstraint(reg: Registry, c: Constraint): Registry
  {
    reg.(constraints := reg.constraints[reg.nextConstraintId := c],
         nextConstraintId := reg.nextConstraintId + 1)
  }

  /** The reference the next created constraint set of type `t` receives. */
  function NextSetRef(reg: Registry, t: ConstraintSetType): ConstraintSetRef
  {
    Reference(t, Auto(reg.nextSetSerial))
  }

  /** Registers a new, empty constraint set with an auto-allocated id. */
  function AddConstraintSet(reg: Registry, t: ConstraintSetType): Registry
  {
    var r := NextSetRef(reg, t);
    reg.(constraintSets := reg.constraintSets + {r},
         constraintsBySet := reg.constraintsBySet[r := {}],
         nextSetSerial := reg.nextSetSerial + 1)
  }

  function MembersOf(reg: Registry, cs: ConstraintSetRef): set<int>
  {
    if cs in reg.constraintsBySet then reg.constraintsBySet[cs] else {}
  }

  function AddConstraintIntoConstraintSet(reg: Registry, id: int, cs: ConstraintSetRef): Registry
  {
    reg.(constraintsBySet := reg.constraintsBySet[cs := MembersOf(reg, cs) + {id}])
  }

  function ReplaceConstraint(reg: Registry, id: int, c: Constraint): Registry
  {
    reg.(constraints := reg.constraints[id := c])
  }

  // ---------------------------------------------------------------------
  // Analyses
  // ---------------------------------------------------------------------

  /** The analysis kinds, with the parameter references each one holds. */
  datatype AnalysisKind =
    | LinearMecaStat
    | NonLinearMecaStat(strategy: ObjectiveRef)
    | LinearModal(frequencyBand: ObjectiveRef)
    | LinearDynaModalFreq(frequencyBand: ObjectiveRef, modalDamping: ObjectiveRef,
                          frequencyValues: ObjectiveRef, residualVector: bool)

  datatype AnalysisView = AnalysisView(
    originalId: int,
    kind: AnalysisKind,
    loadSetRefs: seq<LoadSetRef>,
    constraintSetRefs: seq<ConstraintSetRef>,
    assertionRefs: seq<ObjectiveRef>,
    boundaryDofs: map<int, Dofs>)

  /** 1 when the common load set resolves, else 0: where the explicit sets start. */
  function CommonLoadSetCount(reg: Registry): nat
  {
    if reg.commonLoadSet in reg.loadSets then 1 else 0
  }

  function CommonConstraintSetCount(reg: Registry): nat
  {
    if reg.commonConstraintSet in reg.constraintSets then 1 else 0
  }

  /**
   * The effective load sets: the common set when it resolves, then each
   * explicit reference resolved in insertion order, None where it does not.
   */
  function LoadSets(reg: Registry, v: AnalysisView): (sets: seq<Option<LoadSetRef>>)
    ensures |sets| == CommonLoadSetCount(reg) + |v.loadSetRefs|
    ensures CommonLoadSetCount(reg) == 1 ==> sets[0] == Some(reg.commonLoadSet)
    ensures forall i | 0 <= i < |v.loadSetRefs| ::
      sets[CommonLoadSetCount(reg) + i] == (if v.loadSetRefs[i] in reg.loadSets then Some(v.loadSetRefs[i]) else None)
    ensures forall s | s in sets && s.Some? :: s.value in reg.loadSets
  {
    (if reg.commonLoadSet in reg.loadSets then [Some(reg.commonLoadSet)] else [])
    + seq(|v.loadSetRefs|, i requires 0 <= i < |v.loadSetRefs| => FindLoadSet(reg, v.loadSetRefs[i]))
  }

  /** The effective constraint sets, built as the effective load sets are. */
  function ConstraintSets(reg: Registry, v: AnalysisView): (sets: seq<Option<ConstraintSetRef>>)
    ensures |sets| == CommonConstraintSetCount(reg) + |v.constraintSetRefs|
    ensures CommonConstraintSetCount(reg) == 1 ==> sets[0] == Some(reg.commonConstraintSet)
    ensures forall i | 0 <= i < |v.constraintSetRefs| ::
      sets[CommonConstraintSetCount(reg) + i] ==
        (if v.constraintSetRefs[i] in reg.constraintSets then Some(v.constraintSetRefs[i]) else None)
    ensures forall s | s in sets && s.Some? :: s.value in reg.constraintSets
  {
    (if reg.commonConstraintSet in reg.constraintSets then [Some(reg.commonConstraintSet)] else [])
    + seq(|v.constraintSetRefs|, i requires 0 <= i < |v.constraintSetRefs| =>
            FindConstraintSet(reg, v.constraintSetRefs[i]))
  }

  /** The effective load sets are determined entry by entry. */
  lemma LoadSetsByEntries(reg: Registry, v: AnalysisView, sets: seq<Option<LoadSetRef>>)
    requires |sets| == CommonLoadSetCount(reg) + |v.loadSetRefs|
    requires CommonLoadSetCount(reg) == 1 ==> sets[0] == Some(reg.commonLoadSet)
    requires forall t | 0 <= t < |v.loadSetRefs| ::
      sets[CommonLoadSetCount(reg) + t] == FindLoadSet(reg, v.loadSetRefs[t])
    ensures sets == LoadSets(reg, v)
  {
    var spec := LoadSets(reg, v);
    var off := CommonLoadSetCount(reg);
    forall t | 0 <= t < |sets| ensures sets[t] == spec[t] {
      if t >= off {
        assert sets[off + (t - off)] == FindLoadSet(reg, v.loadSetRefs[t - off]);
      }
    }
  }

  /** The effective constraint sets are determined entry by entry. */
  lemma ConstraintSetsByEntries(reg: Registry, v: AnalysisView, sets: seq<Option<ConstraintSetRef>>)
    requires |sets| == CommonConstraintSetCount(reg) + |v.constraintSetRefs|
    requires CommonConstraintSetCount(reg) == 1 ==> sets[0] == Some(reg.commonConstraintSet)
    requires forall t | 0 <= t < |v.constraintSetRefs| ::
      sets[CommonConstraintSetCount(reg) + t] == FindConstraintSet(reg, v.constraintSetRefs[t])
    ensures sets == ConstraintSets(reg, v)
  {
    var spec := ConstraintSets(reg, v);
    var off := CommonConstraintSetCount(reg);
    forall t | 0 <= t < |sets| ensures sets[t] == spec[t] {
      if t >= off {
        assert sets[off + (t - off)] == FindConstraintSet(reg, v.constraintSetRefs[t - off]);
      }
    }
  }

  /** The parameters a kind of analysis needs, beyond its sets, all resolve. */
  predicate ParametersResolve(reg: Registry, kind: AnalysisKind)
  {
    match kind
    case LinearMecaStat => true
    case NonLinearMecaStat(_) => true
    case LinearModal(band) => ObjectiveResolves(reg, band, FrequencyBandType)
    case LinearDynaModalFreq(band, damping, values, _) =>
      ObjectiveResolves(reg, band, FrequencyBandType)
      && ObjectiveResolves(reg, damping, ModalDampingType)
      && ObjectiveResolves(reg, values, FrequencyTargetType)
  }

  /**
   * An analysis is valid when its effective sets hold no null and its
   * parameters resolve; equivalently, when every explicit reference is
   * registered.
   */
  function IsValid(reg: Registry, v: AnalysisView): (valid: bool)
    ensures valid <==>
      (forall r | r in v.constraintSetRefs :: r in reg.constraintSets)
      && (forall r | r in v.loadSetRefs :: r in reg.loadSets)
      && ParametersResolve(reg, v.kind)
  {
    var cs := ConstraintSets(reg, v);
    var ls := LoadSets(reg, v);
    NullIffUnresolved(reg, v);
    None !in cs && None !in ls && ParametersResolve(reg, v.kind)
  }

  lemma NullIffUnresolved(reg: Registry, v: AnalysisView)
    ensures None in ConstraintSets(reg, v) <==> exists r | r in v.constraintSetRefs :: r !in reg.constraintSets
    ensures None in LoadSets(reg, v) <==> exists r | r in v.loadSetRefs :: r !in reg.loadSets
  {
    NullIffUnresolvedConstraintSets(reg, v);
    NullIffUnresolvedLoadSets(reg, v);
  }

  lemma {:induction false} NullIffUnresolvedConstraintSets(reg: Registry, v: AnalysisView)
    ensures None in ConstraintSets(reg, v) <==> exists r | r in v.constraintSetRefs :: r !in reg.constraintSets
  {
    var cs := ConstraintSets(reg, v);
    var off := CommonConstraintSetCount(reg);
    if None in cs {
      var k :| 0 <= k < |cs| && cs[k] == None;
      assert k >= off;
      assert v.constraintSetRefs[k - off] !in reg.constraintSets;
    }
    if r :| r in v.constraintSetRefs && r !in reg.constraintSets {
      var i :| 0 <= i < |v.constraintSetRefs| && v.constraintSetRefs[i] == r;
      assert cs[off + i] == None;
    }
  }

  lemma {:induction false} NullIffUnresolvedLoadSets(reg: Registry, v: AnalysisView)
    ensures None in LoadSets(reg, v) <==> exists r | r in v.loadSetRefs :: r !in reg.loadSets
  {
    var ls := LoadSets(reg, v);
    var lo := CommonLoadSetCount(reg);
    if None in ls {
      var k :| 0 <= k < |ls| && ls[k] == None;
      assert k >= lo;
      assert v.loadSetRefs[k - lo] !in reg.loadSets;
    }
    if r :| r in v.loadSetRefs && r !in reg.loadSets {
      var i :| 0 <= i < |v.loadSetRefs| && v.loadSetRefs[i] == r;
      assert ls[lo + i] == None;
    }
  }

  /**
   * The assertions of an analysis, one entry per objective reference: the
   * objective when it resolves to an assertion, None otherwise.
   */
  function Assertions(reg: Registry, v: AnalysisView): (result: seq<Option<Objective>>)
    ensures |result| == |v.assertionRefs|
    ensures forall i | 0 <= i < |result| ::
      (result[i].Some? <==> v.assertionRefs[i] in reg.objectives && IsAssertion(reg.objectives[v.assertionRefs[i]]))
      && (result[i].Some? ==> result[i].value == reg.objectives[v.assertionRefs[i]])
  {
    seq(|v.assertionRefs|, i requires 0 <= i < |v.assertionRefs| => AssertionOf(reg, v.assertionRefs[i]))
  }

  function AssertionOf(reg: Registry, r: ObjectiveRef): Option<Objective>
  {
    if r in reg.objectives && IsAssertion(reg.objectives[r]) then Some(reg.objectives[r]) else None
  }

  // ---------------------------------------------------------------------
  // Boundary conditions
  // ---------------------------------------------------------------------

  datatype BoundaryCondition = ConstraintBc(constraintId: int) | LoadingBc(loadingId: int)

  /**
   * The members of the non-null sets, set after set in the given order,
   * each set's members in ascending id, skipping null sets: an id is listed
   * exactly when one of the sets holds it.
   */
  function Flatten<S>(sets: seq<Option<S>>, members: S -> set<int>): (ids: seq<int>)
    ensures forall id :: id in ids <==> exists i | 0 <= i < |sets| :: sets[i].Some? && id in members(sets[i].value)
    decreases |sets|
  {
    if sets == [] then []
    else
      var init := sets[..|sets| - 1];
      var last := sets[|sets| - 1];
      var before := Flatten(init, members);
      var added := if last.Some? then Sorted(members(last.value)) else [];
      forall id ensures id in before + added <==>
        exists i | 0 <= i < |sets| :: sets[i].Some? && id in members(sets[i].value)
      {
        if id in before {
          var i :| 0 <= i < |init| && init[i].Some? && id in members(init[i].value);
          assert sets[i] == init[i];
        }
        if i :| 0 <= i < |sets| && sets[i].Some? && id in members(sets[i].value) {
          if i < |init| {
            assert init[i] == sets[i];
          }
        }
      }
      before + added
  }

  function ConstraintBcsOf(ids: seq<int>): (bcs: seq<BoundaryCondition>)
    ensures |bcs| == |ids| && forall i | 0 <= i < |ids| :: bcs[i] == ConstraintBc(ids[i])
  {
    seq(|ids|, i requires 0 <= i < |ids| => ConstraintBc(ids[i]))
  }

  function LoadingBcsOf(ids: seq<int>): (bcs: seq<BoundaryCondition>)
    ensures |bcs| == |ids| && forall i | 0 <= i < |ids| :: bcs[i] == LoadingBc(ids[i])
  {
    seq(|ids|, i requires 0 <= i < |ids| => LoadingBc(ids[i]))
  }

  /** The constraint ids of an analysis, set after set. */
  function ConstraintIds(reg: Registry, sets: seq<Option<ConstraintSetRef>>): (ids: seq<int>)
    ensures forall id :: id in ids <==>
      exists i | 0 <= i < |sets| :: sets[i].Some? && id in ResolvedConstraints(reg, sets[i].value)
  {
    Flatten(sets, (cs: ConstraintSetRef) => ResolvedConstraints(reg, cs))
  }

  /** The loading ids of an analysis, set after set. */
  function LoadingIds(reg: Registry, sets: seq<Option<LoadSetRef>>): (ids: seq<int>)
    ensures forall id :: id in ids <==>
      exists i | 0 <= i < |sets| :: sets[i].Some? && id in ResolvedLoadings(reg, sets[i].value)
  {
    Flatten(sets, (ls: LoadSetRef) => ResolvedLoadings(reg, ls))
  }

  /** Constraint ids tagged as constraints, followed by loading ids tagged as loadings. */
  function Tagged(cids: seq<int>, lids: seq<int>): (bcs: seq<BoundaryCondition>)
    ensures |bcs| == |cids| + |lids|
    ensures forall i | 0 <= i < |bcs| :: bcs[i].ConstraintBc? <==> i < |cids|
    ensures forall id :: ConstraintBc(id) in bcs <==> id in cids
    ensures forall id :: LoadingBc(id) in bcs <==> id in lids
  {
    var c := ConstraintBcsOf(cids);
    var l := LoadingBcsOf(lids);
    assert forall i | 0 <= i < |c| :: (c + l)[i] == c[i];
    assert forall i | |c| <= i < |c + l| :: (c + l)[i] == l[i - |c|];
    forall id ensures ConstraintBc(id) in c + l <==> id in cids {
      if ConstraintBc(id) in c + l {
        var k :| 0 <= k < |c + l| && (c + l)[k] == ConstraintBc(id);
        assert cids[k] in cids;
      }
      if id in cids {
        var k :| 0 <= k < |cids| && cids[k] == id;
        assert (c + l)[k] == ConstraintBc(id);
      }
    }
    forall id ensures LoadingBc(id) in c + l <==> id in lids {
      if LoadingBc(id) in c + l {
        var k :| 0 <= k < |c + l| && (c + l)[k] == LoadingBc(id);
        assert lids[k - |c|] in lids;
      }
      if id in lids {
        var k :| 0 <= k < |lids| && lids[k] == id;
        assert (c + l)[|c| + k] == LoadingBc(id);
      }
    }
    c + l
  }

  lemma ConstraintIdsOfAnalysis(reg: Registry, v: AnalysisView, id: int)
    ensures id in ConstraintIds(reg, ConstraintSets(reg, v)) <==>
      exists cs :: Some(cs) in ConstraintSets(reg, v) && id in ResolvedConstraints(reg, cs)
  {
    var sets := ConstraintSets(reg, v);
    if id in ConstraintIds(reg, sets) {
      var i :| 0 <= i < |sets| && sets[i].Some? && id in ResolvedConstraints(reg, sets[i].value);
      assert sets[i] in sets;
    }
    if cs :| Some(cs) in sets && id in ResolvedConstraints(reg, cs) {
      var i :| 0 <= i < |sets| && sets[i] == Some(cs);
    }
  }

  lemma LoadingIdsOfAnalysis(reg: Registry, v: AnalysisView, id: int)
    ensures id in LoadingIds(reg, LoadSets(reg, v)) <==>
      exists ls :: Some(ls) in LoadSets(reg, v) && id in ResolvedLoadings(reg, ls)
  {
    var sets := LoadSets(reg, v);
    if id in LoadingIds(reg, sets) {
      var i :| 0 <= i < |sets| && sets[i].Some? && id in ResolvedLoadings(reg, sets[i].value);
      assert sets[i] in sets;
    }
    if ls :| Some(ls) in sets && id in ResolvedLoadings(reg, ls) {
      var i :| 0 <= i < |sets| && sets[i] == Some(ls);
    }
  }

  lemma ConstraintIdsStep(reg: Registry, sets: seq<Option<ConstraintSetRef>>)
    requires sets != []
    ensures ConstraintIds(reg, sets) == ConstraintIds(reg, sets[..|sets| - 1])
      + (if sets[|sets| - 1].Some? then Sorted(ResolvedConstraints(reg, sets[|sets| - 1].value)) else [])
  {
  }

  lemma LoadingIdsStep(reg: Registry, sets: seq<Option<LoadSetRef>>)
    requires sets != []
    ensures LoadingIds(reg, sets) == LoadingIds(reg, sets[..|sets| - 1])
      + (if sets[|sets| - 1].Some? then Sorted(ResolvedLoadings(reg, sets[|sets| - 1].value)) else [])
  {
  }

  lemma TaggedAppend(a: seq<int>, b: seq<int>)
    ensures ConstraintBcsOf(a + b) == ConstraintBcsOf(a) + ConstraintBcsOf(b)
    ensures LoadingBcsOf(a + b) == LoadingBcsOf(a) + LoadingBcsOf(b)
  {
  }

  lemma TaggedStep(ids: seq<int>, id: int)
    ensures ConstraintBcsOf(ids + [id]) == ConstraintBcsOf(ids) + [ConstraintBc(id)]
    ensures LoadingBcsOf(ids + [id]) == LoadingBcsOf(ids) + [LoadingBc(id)]
  {
  }

  /**
   * All boundary conditions of an analysis: every constraint of its
   * effective constraint sets, then every loading of its effective load sets.
   */
  function BoundaryConditions(reg: Registry, v: AnalysisView): (bcs: seq<BoundaryCondition>)
    ensures forall i | 0 <= i < |bcs| ::
      bcs[i].ConstraintBc? <==> i < |ConstraintIds(reg, ConstraintSets(reg, v))|
    ensures forall id :: ConstraintBc(id) in bcs <==>
      exists cs :: Some(cs) in ConstraintSets(reg, v) && id in ResolvedConstraints(reg, cs)
    ensures forall id :: LoadingBc(id) in bcs <==>
      exists ls :: Some(ls) in LoadSets(reg, v) && id in ResolvedLoadings(reg, ls)
  {
    forall id ensures id in ConstraintIds(reg, ConstraintSets(reg, v)) <==>
      exists cs :: Some(cs) in ConstraintSets(reg, v) && id in ResolvedConstraints(reg, cs)
    {
      ConstraintIdsOfAnalysis(reg, v, id);
    }
    forall id ensures id in LoadingIds(reg, LoadSets(reg, v)) <==>
      exists ls :: Some(ls) in LoadSets(reg, v) && id in ResolvedLoadings(reg, ls)
    {
      LoadingIdsOfAnalysis(reg, v, id);
    }
    Tagged(ConstraintIds(reg, ConstraintSets(reg, v)), LoadingIds(reg, LoadSets(reg, v)))
  }

  // ---------------------------------------------------------------------
  // Boundary DOFs
  // ---------------------------------------------------------------------

  /** The boundary DOFs recorded for node `n`; none when `n` was never recorded. */
  function FindBoundaryDofs(boundary: map<int, Dofs>, n: int): Dofs
  {
    if n in boundary then boundary[n] else NoDofs
  }

  /** Records `dofs` at node `n`, united with what `n` already had. */
  function AddBoundaryDofs(boundary: map<int, Dofs>, n: int, dofs: Dofs): (r: map<int, Dofs>)
    ensures r.Keys == boundary.Keys + {n}
    ensures FindBoundaryDofs(r, n) == FindBoundaryDofs(boundary, n) + dofs
    ensures forall m | m != n :: FindBoundaryDofs(r, m) == FindBoundaryDofs(boundary, m)
  {
    boundary[n := FindBoundaryDofs(boundary, n) + dofs]
  }

  /** The boundary map after the given calls, oldest first. */
  function AddAll(boundary: map<int, Dofs>, calls: seq<(int, Dofs)>): map<int, Dofs>
  {
    if calls == [] then boundary
    else
      var last := calls[|calls| - 1];
      AddBoundaryDofs(AddAll(boundary, calls[..|calls| - 1]), last.0, last.1)
  }

  /** The union of the DOFs passed for node `n`. */
  function UnionFor(calls: seq<(int, Dofs)>, n: int): Dofs
  {
    set i, d | 0 <= i < |calls| && calls[i].0 == n && d in calls[i].1 :: d
  }

  /** Every node passed in the calls. */
  function NodesOf(calls: seq<(int, Dofs)>): set<int>
  {
    set i | 0 <= i < |calls| :: calls[i].0
  }

  lemma UnionForStep(calls: seq<(int, Dofs)>, n: int)
    requires calls != []
    ensures UnionFor(calls, n) ==
      UnionFor(calls[..|calls| - 1], n) + (if calls[|calls| - 1].0 == n then calls[|calls| - 1].1 else NoDofs)
  {
    var init := calls[..|calls| - 1];
    var last := calls[|calls| - 1];
    forall d | d in UnionFor(calls, n)
      ensures d in UnionFor(init, n) || (last.0 == n && d in last.1)
    {
      var i :| 0 <= i < |calls| && calls[i].0 == n && d in calls[i].1;
      if i < |init| {
        assert init[i] == calls[i];
      }
    }
    forall d | d in UnionFor(init, n) ensures d in UnionFor(calls, n) {
      var i :| 0 <= i < |init| && init[i].0 == n && d in init[i].1;
      assert calls[i] == init[i];
    }
  }

  lemma NodesOfStep(calls: seq<(int, Dofs)>)
    requires calls != []
    ensures NodesOf(calls) == NodesOf(calls[..|calls| - 1]) + {calls[|calls| - 1].0}
  {
    var init := calls[..|calls| - 1];
    forall x | x in NodesOf(calls) ensures x in NodesOf(init) + {calls[|calls| - 1].0} {
      var i :| 0 <= i < |calls| && calls[i].0 == x;
      if i < |init| {
        assert init[i] == calls[i];
      }
    }
    forall x | x in NodesOf(init) ensures x in NodesOf(calls) {
      var i :| 0 <= i < |init| && init[i].0 == x;
      assert calls[i] == init[i];
    }
  }

  /**
   * After any sequence of calls, the boundary DOFs of a node are what it
   * had plus the union of every set of DOFs passed for it, and the recorded
   * nodes are those it had plus every node passed, even with empty DOFs.
   */
  lemma {:induction false} BoundaryDofsHistory(boundary: map<int, Dofs>, calls: seq<(int, Dofs)>)
    ensures forall n :: FindBoundaryDofs(AddAll(boundary, calls), n) == FindBoundaryDofs(boundary, n) + UnionFor(calls, n)
    ensures AddAll(boundary, calls).Keys == boundary.Keys + NodesOf(calls)
  {
    if calls != [] {
      BoundaryDofsHistory(boundary, calls[..|calls| - 1]);
      forall n ensures FindBoundaryDofs(AddAll(boundary, calls), n) == FindBoundaryDofs(boundary, n) + UnionFor(calls, n) {
        UnionForStep(calls, n);
      }
      NodesOfStep(calls);
    }
  }

  // ---------------------------------------------------------------------
  // The whole model and its well-formedness
  // ---------------------------------------------------------------------

  datatype ModelView = ModelView(reg: Registry, analyses: seq<AnalysisView>)

  /**
   * Ids the model hands out are fresh: every constraint id in use is below
   * the constraint allocator, and every auto-numbered constraint-set
   * reference anywhere in the model is below the set allocator.
   */
  predicate RegistryValid(reg: Registry)
  {
    && (forall id | id in reg.constraints :: id < reg.nextConstraintId)
    && (forall cs, id | cs in reg.constraintsBySet && id in reg.constraintsBySet[cs] :: id < reg.nextConstraintId)
    && (forall cs | cs in reg.constraintSets :: AutoBelow(cs, reg.nextSetSerial))
    && (forall cs | cs in reg.constraintsBySet :: AutoBelow(cs, reg.nextSetSerial))
    && AutoBelow(reg.commonConstraintSet, reg.nextSetSerial)
  }

  predicate Valid(m: ModelView)
  {
    && RegistryValid(m.reg)
    && (forall k, r | 0 <= k < |m.analyses| && r in m.analyses[k].constraintSetRefs ::
          AutoBelow(r, m.reg.nextSetSerial))
  }
}
