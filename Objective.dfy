/**
 * Objectives: assertions checked against a solver's results, and analysis
 * parameters (frequency band, frequency values, modal damping, nonlinear
 * strategy) that analyses refer to. A closed family, so a tagged variant.
 */
module Objectives {
  import opened Dofs
  import opened References

  datatype ObjectiveType =
    | NodalDisplacementAssertionType
    | NodalComplexDisplacementAssertionType
    | FrequencyAssertionType
    | FrequencyTargetType
    | FrequencyBandType
    | ModalDampingType
    | NonlinearStrategyType

  type ObjectiveRef = Reference<ObjectiveType>

  /** The kinds of objective with their own data; reals stand for the source's doubles. */
  datatype ObjectiveKind =
    | NodalDisplacementAssertion(tolerance: real, nodePosition: int, dof: Dof, value: real, instant: real)
    | NodalComplexDisplacementAssertion(tolerance: real, nodePosition: int, dof: Dof,
                                        valueRe: real, valueIm: real, frequency: real)
    | FrequencyAssertion(number: int, frequencyValue: real, tolerance: real)
    | FrequencyValues(stepRange: ValueRef)
    | FrequencyBand(lower: real, upper: real, numMax: int)
    | ModalDamping(functionTable: ValueRef)
    | NonLinearStrategy(numberOfIncrements: int)

  datatype Objective = Objective(originalId: int, kind: ObjectiveKind)

  /** The type tag each kind of objective is constructed with. */
  function Type(o: Objective): ObjectiveType
  {
    match o.kind
    case NodalDisplacementAssertion(_, _, _, _, _) => NodalDisplacementAssertionType
    case NodalComplexDisplacementAssertion(_, _, _, _, _, _) => NodalComplexDisplacementAssertionType
    case FrequencyAssertion(_, _, _) => FrequencyAssertionType
    case FrequencyValues(_) => FrequencyTargetType
    case FrequencyBand(_, _, _) => FrequencyBandType
    case ModalDamping(_) => ModalDampingType
    case NonLinearStrategy(_) => NonlinearStrategyType
  }

  /** Nodal assertions: a displacement, real or complex, of one DOF at one node. */
  predicate IsNodalAssertion(o: Objective)
  {
    o.kind.NodalDisplacementAssertion? || o.kind.NodalComplexDisplacementAssertion?
  }

  /** Assertions, as opposed to analysis parameters. */
  predicate IsAssertion(o: Objective)
  {
    IsNodalAssertion(o) || o.kind.FrequencyAssertion?
  }

  /** Assertions are exactly the objectives whose tag is one of the three assertion tags. */
  lemma {:induction false} AssertionTags(o: Objective)
    ensures IsAssertion(o) <==> Type(o) in {NodalDisplacementAssertionType,
                                             NodalComplexDisplacementAssertionType,
                                             FrequencyAssertionType}
  {
    match o.kind
    case NodalDisplacementAssertion(_, _, _, _, _) =>
    case NodalComplexDisplacementAssertion(_, _, _, _, _, _) =>
    case FrequencyAssertion(_, _, _) =>
    case FrequencyValues(_) =>
    case FrequencyBand(_, _, _) =>
    case ModalDamping(_) =>
    case NonLinearStrategy(_) =>
  }

  /**
   * The DOFs an assertion checks at node position `p`. A nodal assertion
   * answers its own DOF whatever `p` is.
   */
  function DofsForNode(o: Objective, p: int): (dofs: Dofs)
    requires IsAssertion(o)
    ensures IsNodalAssertion(o) ==> dofs == {o.kind.dof}
    ensures o.kind.FrequencyAssertion? ==> dofs == NoDofs
  {
    match o.kind
    case FrequencyAssertion(_, _, _) => NoDofs
    case _ => {o.kind.dof}
  }

  /** The node positions an assertion refers to. */
  function NodePositions(o: Objective): (nodes: set<int>)
    requires IsAssertion(o)
    ensures IsNodalAssertion(o) ==> nodes == {o.kind.nodePosition}
    ensures o.kind.FrequencyAssertion? ==> nodes == {}
  {
    match o.kind
    case FrequencyAssertion(_, _, _) => {}
    case _ => {o.kind.nodePosition}
  }

  /** Printable names of the objective types; the complex nodal assertion has none. */
  const StringByType: map<ObjectiveType, string> := map[
    NodalDisplacementAssertionType := "NODAL_DISPLACEMENT_ASSERTION",
    FrequencyAssertionType := "FREQUENCY_ASSERTION",
    FrequencyTargetType := "FREQUENCY_TARGET",
    FrequencyBandType := "FREQUENCY_BAND",
    ModalDampingType := "MODAL_DAMPING",
    NonlinearStrategyType := "NONLINEAR_STRATEGY"]

  lemma StringByTypeCoverage()
    ensures NodalComplexDisplacementAssertionType !in StringByType
    ensures forall t :: t != NodalComplexDisplacementAssertionType ==> t in StringByType
    ensures |StringByType| == 6
  {
    assert StringByType.Keys == {NodalDisplacementAssertionType, FrequencyAssertionType,
                                 FrequencyTargetType, FrequencyBandType, ModalDampingType,
                                 NonlinearStrategyType};
  }
}
