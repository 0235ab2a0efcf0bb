/**
 * Loadings and load sets.
 *
 * Each loading kind has its own rule for the DOFs it loads at a node, the
 * node positions it touches, when it is ineffective and when it is valid.
 * Floating-point magnitudes are abstracted to "is this component nonzero"
 * flags, which is all those rules inspect.
 */
module Loadings {
  import opened Wrappers
  import opened Dofs
  import opened References
  import opened Meshes
  import opened Collections

  datatype LoadSetType = Load | Dload | ExciteId | AllLoads

  type LoadSetRef = Reference<LoadSetType>

  datatype LoadingType =
    | NodalForceType | GravityType | RotationType | NormalPressionFaceType
    | ForceLineType | ForceSurfaceType | DynamicExcitationType

  /** Which components of a force or a moment vector are nonzero. */
  datatype Components = Components(x: bool, y: bool, z: bool)

  const ZeroVector: Components := Components(false, false, false)

  datatype LoadingKind =
    | NodalForce(node: int, force: Components, moment: Components)
      /** Its force is recomputed from two node positions; the stored force and moment stay zero. */
    | NodalForceTwoNodes(node: int, node1: int, node2: int, magnitudeNonzero: bool, directionNonzero: bool)
    | Gravity(accelerationNonzero: bool, gravityDirectionNonzero: bool)
    | RotationCenter(speedNonzero: bool, axisNonzero: bool)
    | RotationNode(node: int, speedNonzero: bool, axisNonzero: bool)
    | ForceSurface(cells: seq<Cell>, force: Components, moment: Components)
    | PressionFaceTwoNodes(cells: seq<Cell>, force: Components, moment: Components, node1: int, node2: int)
    | ForceLine(cells: seq<Cell>, force: Components, moment: Components)
    | NormalPressionFace(cells: seq<Cell>, intensityNonzero: bool)
    | DynamicExcitation(dynaPhase: ValueRef, functionTableB: ValueRef, loadSet: LoadSetRef)

  /** A loading; `coordinateSystem` is None for the global coordinate system. */
  datatype Loading = Loading(originalId: int, coordinateSystem: Option<int>, kind: LoadingKind)

  function Type(l: Loading): LoadingType
  {
    match l.kind
    case NodalForce(_, _, _) => NodalForceType
    case NodalForceTwoNodes(_, _, _, _, _) => NodalForceType
    case Gravity(_, _) => GravityType
    case RotationCenter(_, _) => RotationType
    case RotationNode(_, _, _) => RotationType
    case ForceSurface(_, _, _) => ForceSurfaceType
    case PressionFaceTwoNodes(_, _, _, _, _) => ForceSurfaceType
    case ForceLine(_, _, _) => ForceLineType
    case NormalPressionFace(_, _) => NormalPressionFaceType
    case DynamicExcitation(_, _, _) => DynamicExcitationType
  }

  /** Loadings applied to a set of cells rather than to nodes or globally. */
  predicate IsElementLoading(l: Loading)
  {
    l.kind.ForceSurface? || l.kind.PressionFaceTwoNodes? || l.kind.ForceLine? || l.kind.NormalPressionFace?
  }

  /** Loadings whose DOFs follow the nonzero components of a force and a moment. */
  predicate HasComponentRule(l: Loading)
  {
    l.kind.NodalForce? || l.kind.ForceSurface? || l.kind.PressionFaceTwoNodes? || l.kind.ForceLine?
  }

  // ---------------------------------------------------------------------
  // DOFs and node positions
  // ---------------------------------------------------------------------

  /** Whether the component of `force` or `moment` driving DOF `d` is nonzero. */
  predicate Nonzero(force: Components, moment: Components, d: Dof)
  {
    match d
    case DX => force.x
    case DY => force.y
    case DZ => force.z
    case RX => moment.x
    case RY => moment.y
    case RZ => moment.z
  }

  /** The DOFs added one component at a time, as the force loadings do. */
  function ComponentDofs(force: Components, moment: Components): (dofs: Dofs)
    ensures forall d :: d in dofs <==> Nonzero(force, moment, d)
  {
    var d0 := NoDofs;
    var d1 := if force.x then d0 + {DX} else d0;
    var d2 := if force.y then d1 + {DY} else d1;
    var d3 := if force.z then d2 + {DZ} else d2;
    var d4 := if moment.x then d3 + {RX} else d3;
    var d5 := if moment.y then d4 + {RY} else d4;
    if moment.z then d5 + {RZ} else d5
  }

  /** Node positions of a sequence of cells. */
  function CellNodes(cells: seq<Cell>): set<int>
  {
    set c, p | c in cells && p in c.nodePositions :: p
  }

  /** The node positions a loading touches. */
  function NodePositions(l: Loading): (nodes: set<int>)
    ensures l.kind.NodalForce? || l.kind.NodalForceTwoNodes? ==> nodes == {l.kind.node}
    ensures IsElementLoading(l) ==> nodes == CellNodes(l.kind.cells)
    ensures l.kind.Gravity? || l.kind.RotationCenter? || l.kind.RotationNode? || l.kind.DynamicExcitation? ==> nodes == {}
  {
    match l.kind
    case NodalForce(node, _, _) => {node}
    case NodalForceTwoNodes(node, _, _, _, _) => {node}
    case ForceSurface(cells, _, _) => CellNodes(cells)
    case PressionFaceTwoNodes(cells, _, _, _, _) => CellNodes(cells)
    case ForceLine(cells, _, _) => CellNodes(cells)
    case NormalPressionFace(cells, _) => CellNodes(cells)
    case _ => {}
  }

  /** The DOFs a loading loads at node position `p`. */
  function DofsForNode(l: Loading, p: int): (dofs: Dofs)
    ensures p !in NodePositions(l) ==> dofs == NoDofs
    ensures HasComponentRule(l) && p in NodePositions(l) ==>
      forall d :: d in dofs <==> Nonzero(l.kind.force, l.kind.moment, d)
    ensures l.kind.NormalPressionFace? && p in NodePositions(l) ==> dofs == AllDofs
    ensures l.kind.NodalForceTwoNodes? ==> dofs == NoDofs
  {
    match l.kind
    case NodalForce(node, force, moment) =>
      if p == node then ComponentDofs(force, moment) else NoDofs
    case NodalForceTwoNodes(node, _, _, _, _) =>
      if p == node then ComponentDofs(ZeroVector, ZeroVector) else NoDofs
    case ForceSurface(cells, force, moment) =>
      if p in CellNodes(cells) then ComponentDofs(force, moment) else NoDofs
    case PressionFaceTwoNodes(cells, force, moment, _, _) =>
      if p in CellNodes(cells) then ComponentDofs(force, moment) else NoDofs
    case ForceLine(cells, force, moment) =>
      if p in CellNodes(cells) then ComponentDofs(force, moment) else NoDofs
    case NormalPressionFace(cells, _) =>
      if p in CellNodes(cells) then NoDofs + AllDofs else NoDofs
    case _ => NoDofs
  }

  /** Whether the loading has no effect. */
  function Ineffective(l: Loading): bool
  {
    match l.kind
    case NodalForce(_, force, moment) => force == ZeroVector && moment == ZeroVector
    case NodalForceTwoNodes(_, _, _, magnitude, direction) => !magnitude || !direction
    case Gravity(acceleration, direction) => !acceleration || !direction
    case RotationCenter(speed, axis) => !speed || !axis
    case RotationNode(_, speed, axis) => !speed || !axis
    case ForceSurface(_, force, moment) => force == ZeroVector && moment == ZeroVector
    case PressionFaceTwoNodes(_, force, moment, _, _) => force == ZeroVector && moment == ZeroVector
    case ForceLine(_, force, moment) => force == ZeroVector && moment == ZeroVector
    case NormalPressionFace(_, intensity) => !intensity
    case DynamicExcitation(_, _, _) => false
  }

  /**
   * For the loadings with the component rule, being ineffective is the same
   * as loading no DOF at any of its nodes (given it touches at least one).
   */
  lemma {:induction false} IneffectiveIffNoDofs(l: Loading)
    requires HasComponentRule(l)
    requires NodePositions(l) != {}
    ensures Ineffective(l) <==> forall p :: DofsForNode(l, p) == NoDofs
  {
    var force := l.kind.force;
    var moment := l.kind.moment;
    if Ineffective(l) {
      forall p ensures DofsForNode(l, p) == NoDofs {
        if p in NodePositions(l) {
          forall d ensures d !in DofsForNode(l, p) {
            assert !Nonzero(force, moment, d);
          }
        }
      }
    } else {
      var p := Pick(NodePositions(l));
      var d: Dof;
      if force.x { d := DX; } else if force.y { d := DY; } else if force.z { d := DZ; }
      else if moment.x { d := RX; } else if moment.y { d := RY; } else { d := RZ; }
      assert Nonzero(force, moment, d);
      assert d in DofsForNode(l, p);
    }
  }

  // ---------------------------------------------------------------------
  // Validation
  // ---------------------------------------------------------------------

  /** The base rule: a loading in a local coordinate system needs that system to exist. */
  predicate BaseValidate(l: Loading, coordinateSystems: set<int>)
  {
    l.coordinateSystem.Some? ==> l.coordinateSystem.value in coordinateSystems
  }

  function Validate(l: Loading, coordinateSystems: set<int>, values: map<ValueRef, ValueType>,
                    loadSets: set<LoadSetRef>): (valid: bool)
    ensures IsElementLoading(l) ==> valid
    ensures l.kind.DynamicExcitation? ==>
      (valid <==> l.kind.loadSet in loadSets
                  && ResolvesTo(values, l.kind.functionTableB, FunctionTableValue)
                  && ResolvesTo(values, l.kind.dynaPhase, DynaPhaseValue))
    ensures !IsElementLoading(l) && !l.kind.DynamicExcitation? ==>
      (valid <==> l.coordinateSystem.None? || l.coordinateSystem.value in coordinateSystems)
  {
    match l.kind
    case ForceSurface(_, _, _) => true
    case PressionFaceTwoNodes(_, _, _, _, _) => true
    case ForceLine(_, _, _) => true
    case NormalPressionFace(_, _) => true
    case DynamicExcitation(dynaPhase, functionTableB, loadSet) =>
      loadSet in loadSets
      && ResolvesTo(values, functionTableB, FunctionTableValue)
      && ResolvesTo(values, dynaPhase, DynaPhaseValue)
    case _ => BaseValidate(l, coordinateSystems)
  }

  // ---------------------------------------------------------------------
  // Load sets
  // ---------------------------------------------------------------------

  /**
   * The loadings of a load set as the model's index lists them: the id of
   * each member that resolves, and None standing for the null pointer of any
   * member that does not.
   */
  function GetLoadings(index: map<LoadSetRef, set<int>>, loadings: map<int, Loading>,
                       ls: LoadSetRef): (members: set<Option<int>>)
    ensures forall id :: Some(id) in members <==> ls in index && id in index[ls] && id in loadings
    ensures None in members <==> ls in index && exists id :: id in index[ls] && id !in loadings
  {
    if ls in index then
      set id | id in index[ls] :: if id in loadings then Some(id) else None
    else
      {}
  }

  function Size(index: map<LoadSetRef, set<int>>, loadings: map<int, Loading>, ls: LoadSetRef): nat
  {
    |GetLoadings(index, loadings, ls)|
  }

  /**
   * A load set is invalid when it is empty or holds a null member; that is,
   * it is valid exactly when the index lists at least one member for it and
   * every listed member resolves to a loading.
   */
  function LoadSetValidate(index: map<LoadSetRef, set<int>>, loadings: map<int, Loading>,
                           ls: LoadSetRef): (valid: bool)
    ensures valid <==> ls in index && index[ls] != {} && forall id | id in index[ls] :: id in loadings
  {
    var members := GetLoadings(index, loadings, ls);
    MembersResolve(index, loadings, ls);
    !(|members| == 0 || None in members)
  }

  /** The membership is non-empty and null-free exactly when the index lists members that all resolve. */
  lemma MembersResolve(index: map<LoadSetRef, set<int>>, loadings: map<int, Loading>, ls: LoadSetRef)
    ensures (|GetLoadings(index, loadings, ls)| != 0 && None !in GetLoadings(index, loadings, ls))
      <==> ls in index && index[ls] != {} && forall id | id in index[ls] :: id in loadings
  {
    var members := GetLoadings(index, loadings, ls);
    if ls in index && index[ls] != {} {
      var id := Pick(index[ls]);
      assert (if id in loadings then Some(id) else None) in members;
    }
    if |members| != 0 {
      var m := Pick(members);
      assert ls in index;
    }
  }

  /**
   * The members of a load set of the given type, collected by a scan of the
   * membership. Each member is dereferenced, so none may be null.
   */
  method GetLoadingsByType(index: map<LoadSetRef, set<int>>, loadings: map<int, Loading>,
                           ls: LoadSetRef, t: LoadingType) returns (result: set<int>)
    requires None !in GetLoadings(index, loadings, ls)
    ensures forall id :: id in result <==>
      Some(id) in GetLoadings(index, loadings, ls) && id in loadings && Type(loadings[id]) == t
  {
    var members := GetLoadings(index, loadings, ls);
    var todo := members;
    result := {};
    while todo != {}
      invariant todo <= members
      invariant forall id :: id in result <==>
        Some(id) in members - todo && id in loadings && Type(loadings[id]) == t
      decreases |todo|
    {
      var m :| m in todo;
      match m {
        case Some(id) =>
          if Type(loadings[id]) == t {
            result := result + {id};
          }
        case None =>
      }
      todo := todo - {m};
    }
  }

  // ---------------------------------------------------------------------
  // Element loadings and the cells they are applied to
  // ---------------------------------------------------------------------

  datatype ElementSetType =
    | CircularSectionBeam | RectangularBeam | ISectionBeam | GenericSectionBeam
    | Shell | Continuum | NodalMass | Discrete0D | Discrete1D | OtherElementSet

  /** The beam kinds, which the source tests as an enum range. */
  predicate IsBeam(t: ElementSetType)
  {
    t == CircularSectionBeam || t == RectangularBeam || t == ISectionBeam || t == GenericSectionBeam
  }

  /** A cell whose element id is set and names a known element set. */
  predicate Resolved(c: Cell, elementSets: map<int, ElementSetType>)
  {
    c.elementId != UnavailableElem && c.elementId in elementSets
  }

  /**
   * Whether a loading on `cells` acts on the geometry rather than on beam
   * elements: decided by the first cell that resolves, and true if none does.
   */
  function IsAppliedToGeometry(cells: seq<Cell>, elementSets: map<int, ElementSetType>): (r: bool)
    ensures (forall i | 0 <= i < |cells| :: !Resolved(cells[i], elementSets)) ==> r
    ensures forall i | 0 <= i < |cells| && Resolved(cells[i], elementSets) ::
      (forall j | 0 <= j < i :: !Resolved(cells[j], elementSets)) ==>
        (r <==> !IsBeam(elementSets[cells[i].elementId]))
  {
    if cells == [] then true
    else if Resolved(cells[0], elementSets) then !IsBeam(elementSets[cells[0].elementId])
    else
      var rest := IsAppliedToGeometry(cells[1..], elementSets);
      assert forall i | 1 <= i < |cells| :: cells[1..][i - 1] == cells[i];
      rest
  }

  /**
   * The scan with two flags: the first resolved cell fixes whether the
   * loading is on beams; a later resolved cell of the other kind stops the
   * scan with the answer the first one gave.
   */
  method AppliedToGeometry(cells: seq<Cell>, elementSets: map<int, ElementSetType>) returns (r: bool)
    ensures r == IsAppliedToGeometry(cells, elementSets)
  {
    var isForceOnBeam := false;
    var decided := false;
    var i := 0;
    while i < |cells|
      invariant 0 <= i <= |cells|
      invariant !decided ==> !isForceOnBeam
      invariant !decided ==> IsAppliedToGeometry(cells, elementSets) == IsAppliedToGeometry(cells[i..], elementSets)
      invariant decided ==> IsAppliedToGeometry(cells, elementSets) == !isForceOnBeam
    {
      var elementId := cells[i].elementId;
      assert cells[i..][1..] == cells[i + 1..];
      if elementId != UnavailableElem && elementId in elementSets {
        if IsBeam(elementSets[elementId]) {
          if decided && !isForceOnBeam {
            return !isForceOnBeam;
          }
          decided := true;
          isForceOnBeam := true;
        } else {
          if decided && isForceOnBeam {
            return !isForceOnBeam;
          }
          decided := true;
          isForceOnBeam := false;
        }
      }
      i := i + 1;
    }
    r := !isForceOnBeam;
  }

  /** Whether some cell has a dimension strictly greater than `dimension`, by a scan that stops at the first. */
  method CellDimensionGreaterThan(cells: seq<Cell>, dimension: nat) returns (r: bool)
    ensures r <==> exists i | 0 <= i < |cells| :: Dimension(cells[i].cellType) > dimension
  {
    r := false;
    var i := 0;
    while i < |cells|
      invariant 0 <= i <= |cells|
      invariant !r
      invariant forall j | 0 <= j < i :: Dimension(cells[j].cellType) <= dimension
    {
      r := r || Dimension(cells[i].cellType) > dimension;
      if r {
        return;
      }
      i := i + 1;
    }
  }
}
