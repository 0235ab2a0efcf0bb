/**
 * Degrees of freedom of a mesh node. The source keeps a set of DOFs as a
 * 6-bit value; here it is a set, so bitwise AND is intersection and
 * bitwise OR is union.
 */
module Dofs {

  datatype Dof = DX | DY | DZ | RX | RY | RZ

  type Dofs = set<Dof>

  const NoDofs: Dofs := {}

  const AllDofs: Dofs := {DX, DY, DZ, RX, RY, RZ}

  const Translations: Dofs := {DX, DY, DZ}
}
