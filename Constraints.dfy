/**
 * Constraints and constraint-set references.
 *
 * A single-point constraint (SPC) fixes, at each of its nodes, a set of
 * DOFs, and holds one imposed value per DOF. The SPC class body is not part
 * of this model; these functions carry the contracts the core relies on.
 */
module Constraints {
  import opened Dofs
  import opened References

  datatype ConstraintSetType = SpcSet | MpcSet | OtherConstraintSet

  type ConstraintSetRef = Reference<ConstraintSetType>

  datatype Constraint =
    | Spc(dofsByNode: map<int, Dofs>, values: map<Dof, real>)
    | Rigid(master: int, slaves: set<int>)
    | Rbe3(master: int, slaves: set<int>)
    | OtherConstraint

  /** The DOFs an SPC fixes at node position `n`; none if it does not cover `n`. */
  function SpcDofsAt(c: Constraint, n: int): Dofs
    requires c.Spc?
  {
    if n in c.dofsByNode then c.dofsByNode[n] else NoDofs
  }

  /** The value an SPC imposes on DOF `d`; 0 when none was set. */
  function DoubleForDof(c: Constraint, d: Dof): real
    requires c.Spc?
  {
    if d in c.values then c.values[d] else 0.0
  }

  /** The node positions a constraint covers (an SPC's nodes; no others are needed here). */
  function NodePositions(c: Constraint): set<int>
  {
    if c.Spc? then c.dofsByNode.Keys else {}
  }

  /** The SPC without node `n`; other nodes and all values are kept. */
  function RemoveNode(c: Constraint, n: int): (r: Constraint)
    requires c.Spc?
    ensures r.Spc? && r.values == c.values
    ensures n !in NodePositions(r) && SpcDofsAt(r, n) == NoDofs
    ensures NodePositions(r) == NodePositions(c) - {n}
    ensures forall m | m != n :: SpcDofsAt(r, m) == SpcDofsAt(c, m)
  {
    Spc(map m | m in c.dofsByNode && m != n :: c.dofsByNode[m], c.values)
  }

  /**
   * A new SPC on node `n` alone, fixing `dofs` with the values `from`
   * imposes on them.
   */
  function NewSpc(n: int, dofs: Dofs, from: Constraint): (r: Constraint)
    requires from.Spc?
    ensures r.Spc? && NodePositions(r) == {n}
    ensures SpcDofsAt(r, n) == dofs
    ensures forall m | m != n :: SpcDofsAt(r, m) == NoDofs
    ensures forall d | d in dofs :: DoubleForDof(r, d) == DoubleForDof(from, d)
  {
    Spc(map[n := dofs], map d | d in dofs :: DoubleForDof(from, d))
  }
}
