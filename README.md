# vega: analyses, loadings, objectives and the Systus writer's bookkeeping

This project models part of vega, a translator between finite-element solver
input formats. Its subject is the layer that ties analyses to the boundary
conditions of a model, plus the computations the Systus writer performs before
it emits text.

- **Analyses** (`Analyses`, `ModelState`, `SpcRemoval`). An analysis holds
  ordered references to load sets, constraint sets and assertions. It resolves
  them in the model, with the model's common set first and a null placeholder
  wherever a reference does not resolve. It validates itself, flattens its
  effective sets into boundary conditions, and keeps boundary DOFs per node.
  - `Analyses.Model` and `Analyses.Analysis` are classes whose methods update
    their fields in place.
  - The queries are proved equal to value-level functions over a registry
    (`ModelState.Registry`) that stands for the model.
  - `removeSPCNodeDofs` splits a single-point constraint (SPC) at one node.
    The DOFs that remain go to a new SPC in every set that held the original.
    When there are two analyses or more, the removed DOFs go to a new SPC in a
    new set, which every other analysis that sees an affected set receives. The
    SPC then loses the node.
  - `Analyses.Analysis.RemoveSpcNodeDofs` is proved equal to the function
    `SpcRemoval.RemoveSpcNodeDofs`. The `SpcRemoval` lemmas state the effect
    of that function in closed form: which DOFs each analysis sees at each
    node afterwards, and that the model stays well formed.
- **Loadings** (`Loadings`). Each loading kind has its own rules:
  - which DOFs it loads at a node;
  - which node positions it touches;
  - when it is ineffective;
  - when it is valid.

  This module also covers load-set membership, filtering a set by loading
  type, and how an element loading decides whether it is applied to geometry.
- **Objectives** (`Objectives`). The closed family of objective kinds, each
  with its type tag, its DOF and node rules, and the name table.
- **Systus writer** (`SystusConnect`, `SystusLists`, `SystusWriting`):
  - the MED-to-Systus node permutation table and the reordering of each cell;
  - the choice of the Systus option and the largest node count;
  - the node lists of nodal forces and SPCs, with the masked DOFs per node;
  - the rigid-bar cells generated for RBE2 and RBE3 constraints;
  - the load numbering of an analysis.

  `SystusWriting.SystusWriter` is a class whose fields are the writer's own.
  Each method is proved equal to a specification function of its old fields,
  and lemmas state the properties of those functions.

The supporting modules are:

- `Wrappers`: Option and outcome types.
- `Dofs`: DOFs as a set over six values.
- `References`: a reference is a kind plus an original id.
- `Collections`: ascending iteration over a set, erasing the first match, and permutations.
- `Meshes`: cell types and a mesh the writer appends to.
- `Constraints`: SPCs and rigid bodies.

## Model

| member | source | states |
|---|---|---|
| Analyses.Analysis.constructor | Abstract/Analysis.cpp:21-23 | A new analysis has its model, kind and id, no references and no boundary DOFs. |
| Analyses.Analysis.AddLoadSet | Abstract/Analysis.cpp:40-42 | Appends the reference at the end of the load-set list. Nothing else changes. |
| Analyses.Analysis.AddConstraintSet | Abstract/Analysis.cpp:80-82 | Appends the reference at the end of the constraint-set list. Nothing else changes. |
| Analyses.Analysis.AddAssertion | Abstract/Analysis.cpp:151-153 | Appends the reference at the end of the assertion list. Nothing else changes. |
| Analyses.Analysis.RemoveLoadSet | Abstract/Analysis.cpp:84-91 | Erases only the first occurrence and keeps the order of the rest. Absent means no change. |
| Analyses.Analysis.RemoveConstraintSet | Abstract/Analysis.cpp:93-100 | Erases only the first occurrence and keeps the order of the rest. Absent means no change. |
| Analyses.Analysis.RemoveAssertion | Abstract/Analysis.cpp:102-109 | Erases only the first occurrence and keeps the order of the rest. Absent means no change. |
| Analyses.Analysis.ContainsLoadSet | Abstract/Analysis.cpp:111-118 | True iff an explicit load-set reference equals the argument. The common set is not considered. |
| Analyses.Analysis.ContainsConstraintSet | Abstract/Analysis.cpp:120-127 | True iff an explicit constraint-set reference equals the argument. |
| Analyses.Analysis.ContainsAssertion | Abstract/Analysis.cpp:129-136 | True iff an explicit assertion reference equals the argument. |
| Analyses.Analysis.GetLoadSets | Abstract/Analysis.cpp:44-53 | The loop's result is `ModelState.LoadSets`: the common set if it resolves, then the lookup of each reference in order. |
| Analyses.Analysis.GetConstraintSets | Abstract/Analysis.cpp:138-149 | The loop's result is `ModelState.ConstraintSets`, built the same way. |
| Analyses.Analysis.GetAssertions | Abstract/Analysis.cpp:155-162 | One entry per assertion reference: the objective when it is found and is an assertion, else null. |
| Analyses.Analysis.GetBoundaryConditions | Abstract/Analysis.cpp:55-78 | The loops' result is `ModelState.BoundaryConditions` of the analysis. |
| Analyses.Analysis.Validate | Abstract/Analysis.cpp:164-173 | The result is `ModelState.IsValid`: no null among the effective sets, and the kind's parameters resolve. |
| Analyses.Analysis.AddBoundaryDofs | Abstract/Analysis.cpp:229-231 | The map becomes `ModelState.AddBoundaryDofs` of the old map. The reference lists are unchanged. |
| Analyses.Analysis.FindBoundaryDofs | Abstract/Analysis.cpp:233-240 | The recorded DOFs of the node, or no DOFs when the node has no entry. |
| Analyses.Analysis.BoundaryNodePositions | Abstract/Analysis.cpp:242-248 | Exactly the nodes that have an entry, collected entry by entry. |
| Analyses.Analysis.RemoveSpcNodeDofs | Abstract/Analysis.cpp:176-227 | The new model is `SpcRemoval.RemoveSpcNodeDofs` of the old one for this analysis. The model stays valid. |
| Analyses.Analysis.ApplyRemoval | Abstract/Analysis.cpp:177-226 | The registry and analysis updates, in source order, give `SpcRemoval.RemoveSpcNodeDofs`. |
| Analyses.Analysis.ReplaceInModel | Abstract/Analysis.cpp:226 | The SPC losing the node replaces the original in the registry. The analyses are untouched. |
| Analyses.Analysis.ShareRemoved | Abstract/Analysis.cpp:198-225 | The registry and the analyses become `MoveRemoved` followed by `AttachToOthers`, with the new set as the next SPC-set reference. |
| Analyses.Analysis.KeepRemaining | Abstract/Analysis.cpp:182-197 | The registry becomes `SpcRemoval.KeepRemaining`: a new SPC with the remaining DOFs in every affected set, only when some DOFs remain. |
| Analyses.Analysis.AddIntoSets | Abstract/Analysis.cpp:194-196 | Adding the constraint set by set gives `SpcRemoval.AddIntoAll`. |
| Analyses.Analysis.MoveRemoved | Abstract/Analysis.cpp:199-207 | A new SPC set holding a new SPC with the removed DOFs; returns that set's reference. |
| Analyses.Analysis.AttachToOthers | Abstract/Analysis.cpp:213-224 | Every analysis other than this one, one of whose effective sets is affected, gets the new set appended once. |
| Analyses.Analysis.AttachIfSees | Abstract/Analysis.cpp:217-223 | The analysis takes the new set exactly when one of its effective constraint sets is affected. |
| Analyses.Analysis.SeesAnyOf | Abstract/Analysis.cpp:217-220 | True iff one of the effective constraint sets is among the affected ones. |
| Analyses.Model.AddConstraint | Abstract/Analysis.cpp:188 | Registers the constraint under the next free id and returns that id. |
| Analyses.Model.AddConstraintSet | Abstract/Analysis.cpp:199-200 | Registers an empty set under the next set reference and returns that reference. |
| Analyses.Model.AddConstraintIntoConstraintSet | Abstract/Analysis.cpp:195 | Records the constraint as a member of the set. |
| Analyses.Model.ReplaceConstraint | Abstract/Analysis.cpp:226 | Replaces the constraint stored under the id. |
| Analyses.CollectConstraints | Abstract/Analysis.cpp:57-66 | The constraint loop gives the non-null constraints of the non-null sets, set after set. |
| Analyses.CollectLoadings | Abstract/Analysis.cpp:67-76 | The loading loop gives the non-null loadings of the non-null load sets, set after set. |
| Analyses.AppendConstraints | Abstract/Analysis.cpp:62-65 | Pushes each constraint of one set, in order. |
| Analyses.AppendLoadings | Abstract/Analysis.cpp:72-75 | Pushes each loading of one set, in order. |
| ModelState.ResolvedLoadings | Abstract/Loading.cpp:79-86 | The ids whose loadings the set's membership finds. |
| ModelState.LoadSets | Abstract/Analysis.cpp:44-53 | Length is the number of references plus one when the common set resolves. The common set comes first, then the lookup of each reference, null where it does not resolve. |
| ModelState.ConstraintSets | Abstract/Analysis.cpp:138-149 | The same for constraint sets. |
| ModelState.LoadSetsByEntries | Abstract/Analysis.cpp:44-53 | Any sequence built entry by entry as the loop does equals `LoadSets`. |
| ModelState.ConstraintSetsByEntries | Abstract/Analysis.cpp:138-149 | Any sequence built entry by entry as the loop does equals `ConstraintSets`. |
| ModelState.IsValid | Abstract/Analysis.cpp:164-173 | Valid iff every explicit reference is registered and the kind's parameters resolve. A linear modal analysis needs its frequency band; a modal frequency-response analysis also needs its modal damping and frequency values. The overrides are at lines 290-292 and 315-317. |
| ModelState.NullIffUnresolved | Abstract/Analysis.cpp:164-173 | A null appears among the effective sets iff some explicit reference is not registered. |
| ModelState.NullIffUnresolvedConstraintSets | Abstract/Analysis.cpp:138-149 | A null constraint set appears iff some constraint-set reference is not registered. |
| ModelState.NullIffUnresolvedLoadSets | Abstract/Analysis.cpp:44-53 | A null load set appears iff some load-set reference is not registered. |
| ModelState.Assertions | Abstract/Analysis.cpp:155-162 | Entry i is non-null iff reference i finds an assertion, and is then that objective. |
| ModelState.Flatten | Abstract/Analysis.cpp:55-78 | The ids are exactly the members of the non-null sets. |
| ModelState.ConstraintBcsOf | Abstract/Analysis.cpp:62-65 | Tags each id as a constraint, in order. |
| ModelState.LoadingBcsOf | Abstract/Analysis.cpp:72-75 | Tags each id as a loading, in order. |
| ModelState.ConstraintIds | Abstract/Analysis.cpp:57-66 | Exactly the non-null constraints of the non-null constraint sets. |
| ModelState.LoadingIds | Abstract/Analysis.cpp:67-76 | Exactly the non-null loadings of the non-null load sets. |
| ModelState.Tagged | Abstract/Analysis.cpp:55-78 | All constraints come before all loadings, and each list is present in full. |
| ModelState.ConstraintIdsOfAnalysis | Abstract/Analysis.cpp:57-66 | A constraint is collected iff it belongs to an effective, non-null constraint set. |
| ModelState.LoadingIdsOfAnalysis | Abstract/Analysis.cpp:67-76 | A loading is collected iff it belongs to an effective, non-null load set. |
| ModelState.ConstraintIdsStep | Abstract/Analysis.cpp:57-66 | One more set adds its members in ascending order, or nothing when it is null. |
| ModelState.LoadingIdsStep | Abstract/Analysis.cpp:67-76 | One more load set adds its members in ascending order, or nothing when it is null. |
| ModelState.TaggedAppend | Abstract/Analysis.cpp:55-78 | Tagging distributes over concatenation. |
| ModelState.TaggedStep | Abstract/Analysis.cpp:55-78 | Tagging one more id pushes one tagged entry. |
| ModelState.BoundaryConditions | Abstract/Analysis.cpp:55-78 | Constraints come first. A constraint or loading is present iff it belongs to a non-null effective set; nulls are skipped without failing. |
| ModelState.AddBoundaryDofs | Abstract/Analysis.cpp:229-231 | The node gains an entry, equal to its old DOFs joined with the new ones. Every other node is unchanged. |
| ModelState.UnionForStep | Abstract/Analysis.cpp:229-231 | The union over one more call adds that call's DOFs at its node. |
| ModelState.NodesOfStep | Abstract/Analysis.cpp:229-231 | One more call adds its node. |
| ModelState.BoundaryDofsHistory | Abstract/Analysis.cpp:229-248 | After any calls, a node's DOFs are the old ones joined with every DOF set passed for it. The nodes are the old ones plus every node passed, even with empty DOFs. |
| SpcRemoval.SeesIffEffective | Abstract/Analysis.cpp:138-149 | A constraint set is among the effective sets iff it is registered and is common or referenced. |
| SpcRemoval.SeenAreBoundaryConditions | Abstract/Analysis.cpp:55-78 | The constraints an analysis sees are exactly its constraint boundary conditions. |
| SpcRemoval.VisibleSplit | Abstract/Analysis.cpp:177 | The DOFs seen at a node are those of the other seen constraints joined with one constraint's contribution. |
| SpcRemoval.AddIntoAllEffect | Abstract/Analysis.cpp:194-196 | Each chosen set gains the constraint and no other membership changes. |
| SpcRemoval.AddIntoNone | Abstract/Analysis.cpp:194-196 | Adding into no set changes nothing. |
| SpcRemoval.AddIntoOneMore | Abstract/Analysis.cpp:194-196 | Adding into one more set is one more membership. |
| SpcRemoval.KeepRemainingConstraints | Abstract/Analysis.cpp:182-188 | A new SPC with the remaining DOFs is registered under the next id, only when some DOFs remain. |
| SpcRemoval.KeepRemainingEffect | Abstract/Analysis.cpp:182-197 | As above, plus: every affected set gains exactly that SPC, and nothing else in the registry changes. |
| SpcRemoval.MoveRemovedConstraints | Abstract/Analysis.cpp:198-206 | With two analyses or more, a new SPC with the removed DOFs is registered under the next id. |
| SpcRemoval.MoveRemovedEffect | Abstract/Analysis.cpp:198-207 | As above, plus a new SPC set holding exactly that SPC; nothing else in the registry changes. |
| SpcRemoval.AttachToOthersEffect | Abstract/Analysis.cpp:213-224 | Analysis k gains the new set once iff it is not the caller and sees an affected set. |
| SpcRemoval.Steps | Abstract/Analysis.cpp:176-227 | The removal is the composition of the steps in source order. |
| SpcRemoval.EffectOnConstraints | Abstract/Analysis.cpp:182-226 | The registry's constraints after the removal, in closed form. The original loses the node; the new SPCs are present exactly when created; every other constraint is unchanged. |
| SpcRemoval.ConstraintKeysAfter | Abstract/Analysis.cpp:182-206 | Which constraint ids exist after the removal. |
| SpcRemoval.RemovalRegConstraints | Abstract/Analysis.cpp:182-226 | The constraints after each step of the removal. |
| SpcRemoval.EffectOnSets | Abstract/Analysis.cpp:198-200 | Exactly one new constraint set when there are two analyses or more, none otherwise. Loadings, objectives and the common sets are untouched. |
| SpcRemoval.EffectOnMembers | Abstract/Analysis.cpp:194-207 | Each set's members after the removal. The affected sets gain the remaining-DOF SPC; the new set holds only the removed-DOF SPC. |
| SpcRemoval.KeepRemainingMembers | Abstract/Analysis.cpp:194-196 | Set memberships after keeping the remaining DOFs. |
| SpcRemoval.MoveRemovedMembers | Abstract/Analysis.cpp:207 | Set memberships after moving the removed DOFs. |
| SpcRemoval.FreshSet | Abstract/Analysis.cpp:199-200 | The new constraint set is not registered, not common, and referenced by no analysis. |
| SpcRemoval.EffectOnAnalyses | Abstract/Analysis.cpp:213-224 | With two analyses or more, each other analysis that sees the SPC gets the new set appended once. The caller and the rest are unchanged. |
| SpcRemoval.QualifiesStable | Abstract/Analysis.cpp:217-220 | Registering new sets does not change which analyses see an affected set. |
| SpcRemoval.SeesSpcIffSeen | Abstract/Analysis.cpp:179-181 | An analysis sees an affected set iff the SPC is among its constraint boundary conditions. |
| SpcRemoval.SeesAfter | Abstract/Analysis.cpp:213-224 | After the removal, an analysis sees a set iff it did before, or it is taking the new set. |
| SpcRemoval.SeenAfterForward | Abstract/Analysis.cpp:182-225 | A constraint seen afterwards was seen before or is one of the new SPCs given to that analysis. |
| SpcRemoval.SeenThroughSet | Abstract/Analysis.cpp:182-225 | The same, for one set through which the constraint is seen. |
| SpcRemoval.SeenAfterBackward | Abstract/Analysis.cpp:182-225 | The converse: every constraint seen before, and every new SPC given to the analysis, is seen afterwards. |
| SpcRemoval.ContributionAfter | Abstract/Analysis.cpp:182-226 | After the removal, the DOFs each constraint fixes at each node. |
| SpcRemoval.VisibleElsewhere | Abstract/Analysis.cpp:176-227 | At every other node, every analysis sees the same DOFs as before. |
| SpcRemoval.AtNodeForward | Abstract/Analysis.cpp:176-227 | A DOF seen at the node afterwards is in the closed-form union. |
| SpcRemoval.AtNodeBackward | Abstract/Analysis.cpp:176-227 | A DOF in the closed-form union is seen at the node afterwards. |
| SpcRemoval.FreshIds | Abstract/Analysis.cpp:182-207 | The new SPCs get ids that were not in use, and differ from each other. |
| SpcRemoval.VisibleAtNode | Abstract/Analysis.cpp:176-227 | The DOFs each analysis sees at the node afterwards equal the closed-form union. |
| SpcRemoval.VisibleBefore | Abstract/Analysis.cpp:177 | Before the removal, the DOFs seen at the node are the SPC's DOFs joined with the other seen constraints'. |
| SpcRemoval.OthersKeepTheirDofs | Abstract/Analysis.cpp:198-225 | Every other analysis sees its old DOFs at the node, plus the removed ones if it saw the SPC. When the removed DOFs are among the fixed ones, it sees exactly the same DOFs. |
| SpcRemoval.SelfLosesRemovedDofs | Abstract/Analysis.cpp:176-227 | The caller sees the SPC's DOFs minus the removed ones, joined with the other seen constraints'. The original SPC no longer covers the node. |
| SpcRemoval.MembershipAfter | Abstract/Analysis.cpp:194-207 | The original and the remaining-DOF SPC lie in exactly the affected sets. The removed-DOF SPC lies only in the new set. |
| SpcRemoval.RegistryValidAfter | Abstract/Analysis.cpp:176-227 | The registry stays well formed. |
| SpcRemoval.IdsBelowAfter | Abstract/Analysis.cpp:182-207 | Every constraint id stays below the id allocator. |
| SpcRemoval.RegisteredBelowAfter | Abstract/Analysis.cpp:199-200 | Every registered set reference stays below the set allocator. |
| SpcRemoval.MembersBelowAfter | Abstract/Analysis.cpp:194-207 | Every member id stays below the id allocator. |
| SpcRemoval.SetsBelowAfter | Abstract/Analysis.cpp:194-207 | Every indexed set stays below the set allocator. |
| SpcRemoval.RefsValidAfter | Abstract/Analysis.cpp:221 | Every analysis reference stays below the set allocator, so no dangling reference can start to resolve. |
| SpcRemoval.ValidPreserved | Abstract/Analysis.cpp:176-227 | The model stays well formed. |
| Loadings.ComponentDofs | Abstract/Loading.cpp:274-291 | DX, DY, DZ, RX, RY, RZ are present exactly for the nonzero force and moment components. |
| Loadings.NodePositions | Abstract/Loading.cpp:293-295 | A nodal force has its node. An element loading has the nodes of its cells. Gravity, rotation and dynamic excitation have none. The other kinds are at lines 119-121, 166-168, 342-344 and 565-567. |
| Loadings.DofsForNode | Abstract/Loading.cpp:274-291 | No DOFs off the loading's nodes. On them: the component rule for nodal forces and force surfaces or lines, and all DOFs for a normal pressure. The other kinds are at lines 115-117, 161-164, 409-427, 470-488, 516-523 and 569-572. |
| Loadings.IneffectiveIffNoDofs | Abstract/Loading.cpp:306-308 | For the component-rule kinds, ineffective iff no DOF is loaded at any node. The surface and line forces are at lines 438-440 and 499-501. |
| Loadings.Validate | Abstract/Loading.cpp:42-55 | Element loadings are always valid. A dynamic excitation is valid iff its load set, function table and dyna phase resolve. Any other loading is valid iff it has no coordinate system or its system is registered. The overrides are at lines 442-444, 503-505, 537-540 and 578-580. |
| Loadings.GetLoadings | Abstract/Loading.cpp:79-86 | The membership of the set from the model's index: a found loading for each member id, and a null for each id that finds none. |
| Loadings.LoadSetValidate | Abstract/Loading.cpp:98-103 | Invalid iff the membership is empty or holds a null. The size is computed at lines 71-73. |
| Loadings.GetLoadingsByType | Abstract/Loading.cpp:88-96 | Exactly the members whose type is the one asked for. |
| Loadings.IsAppliedToGeometry | Abstract/Loading.cpp:358-393 | The first cell whose element resolves decides: false for a beam element, true otherwise. True when no cell's element resolves. |
| Loadings.AppliedToGeometry | Abstract/Loading.cpp:358-393 | The flag loop computes `IsAppliedToGeometry`. |
| Loadings.CellDimensionGreaterThan | Abstract/Loading.cpp:346-356 | True iff some cell's dimension is strictly greater. |
| Objectives.AssertionTags | Abstract/Objective.cpp:58-95 | An objective is an assertion iff its tag is nodal displacement, nodal complex displacement or frequency assertion. |
| Objectives.DofsForNode | Abstract/Objective.cpp:48-51 | A nodal assertion gives its DOF at every position, including positions other than its own node. A frequency assertion gives none. The frequency assertion is at lines 88-91. |
| Objectives.NodePositions | Abstract/Objective.cpp:52-56 | A nodal assertion has exactly its node; a frequency assertion has none. The frequency assertion is at lines 92-95. |
| Objectives.StringByTypeCoverage | Abstract/Objective.cpp:25-32 | The table names six kinds and has no entry for the nodal complex displacement assertion. |
| Constraints.RemoveNode | Abstract/Analysis.cpp:226 | The SPC no longer covers the node, and is unchanged at every other node. |
| Constraints.NewSpc | Abstract/Analysis.cpp:183-187 | An SPC at just the node, fixing exactly the given DOFs, with the original's value for each. The SPC for the other analyses is built the same way at lines 201-205. |
| Meshes.Dimension | Abstract/MeshComponents.h:132-139 | Cell dimensions are at most 3. |
| Meshes.FirstTenAreLowDimensional | Systus/SystusWriter.cpp:104-119 | Among the scanned types, the first ten are exactly those of dimension at most 2. They are the fixed-size types of dimension at most 2: POLYL, POLYGON and QPOLYG are of low dimension but not scanned. |
| Meshes.ScannedTypes | Systus/SystusWriter.cpp:104-108 | The scan array holds exactly the twenty fixed-size types. POLYL, POLYGON, QPOLYG and POLYHED are not in it. |
| Meshes.CountCells | Systus/SystusWriter.cpp:113 | Positive iff the mesh has a cell of the type, and at most the number of cells. |
| Meshes.Mesh.AddNode | Systus/SystusWriter.cpp:146-152 | Appends a node with the next automatic id at the next position, and returns that position. |
| Meshes.Mesh.AddCell | Systus/SystusWriter.cpp:160-177 | Appends a cell with the next automatic id at the next position, and returns that position. |
| Meshes.Mesh.CreateCellGroup | Systus/SystusWriter.cpp:141 | Appends an empty named group. The RBE3 group is created at line 171. |
| Meshes.Mesh.AddCellToGroup | Systus/SystusWriter.cpp:164 | The group gains the cell id; nothing else changes. The RBE3 bars are added at line 179. |
| SystusConnect.InverseGivesPermutation | Systus/SystusWriter.cpp:33-49 | A sequence with an inverse on 0..k-1 is a permutation. |
| SystusConnect.UndoneBelowGivesInverses | Systus/SystusWriter.cpp:33-49 | The evaluated inverse check gives the inverse property. |
| SystusConnect.EntryIsPermutation | Systus/SystusWriter.cpp:33-49 | A table entry with a checked inverse is a permutation. |
| SystusConnect.LongEntryIsPermutation | Systus/SystusWriter.cpp:43-48 | As above, for the entries of ten nodes or more. |
| SystusConnect.ShortEntriesArePermutations | Systus/SystusWriter.cpp:35-46 | Each entry of at most ten nodes has the type's node count as its length and is a permutation. |
| SystusConnect.Penta15EntryIsPermutation | Systus/SystusWriter.cpp:45 | The PENTA15 entry is a permutation of 0..14. |
| SystusConnect.Hexa20EntryIsPermutation | Systus/SystusWriter.cpp:47-48 | The HEXA20 entry is a permutation of 0..19. |
| SystusConnect.TableEntriesArePermutations | Systus/SystusWriter.cpp:33-49 | Every entry's length is its type's node count, and it lists each position exactly once. |
| SystusConnect.UnsupportedTypes | Systus/SystusWriter.cpp:33-49 | The table has no entry exactly for SEG4, TRI7, QUAD9, PYRA5, HEXGP12, PYRA13, HEXA27 and the four polygonal and polyhedral types. |
| SystusConnect.SystusConnectOf | Systus/SystusWriter.cpp:429-443 | None iff the type has no entry; otherwise a rearrangement (same multiset) of the cell's node ids. |
| SystusConnect.Reorder | Systus/SystusWriter.cpp:439-443 | Output position i is `medConnect[perm[i]]` for every i below the node count. |
| SystusConnect.SupportedConnectsCount | Systus/SystusWriter.cpp:429-448 | One connectivity is written per supported cell. |
| SystusConnect.SupportedConnectsAreRearrangements | Systus/SystusWriter.cpp:429-448 | Each written connectivity rearranges the node ids of some supported cell. |
| SystusConnect.SystusConnects | Systus/SystusWriter.cpp:429-448 | The cell loop skips unsupported cells and reorders the others, in order. |
| SystusLists.LoadItemsOf | Systus/SystusWriter.cpp:190-192 | One item per loading of the set, tagged with the set's id. |
| SystusLists.FoldLoadsSnoc | Systus/SystusWriter.cpp:192-211 | Folding one more loading is one more step. |
| SystusLists.FoldLoadsDefined | Systus/SystusWriter.cpp:193-210 | The fold succeeds iff every loading is a nodal force, gravity or rotation. |
| SystusLists.FoldLoadsEntries | Systus/SystusWriter.cpp:194-198 | A node has a row iff a nodal force acts on it. A row has a set id iff a force of that set acts on the node. |
| SystusLists.FoldLoadsLastWins | Systus/SystusWriter.cpp:197 | The entry is the id of the last force of that set acting on that node. |
| SystusLists.LoadItemsMembers | Systus/SystusWriter.cpp:190-192 | The items are exactly the loadings of the sets, tagged with their set's id. |
| SystusLists.ConstraintItemsOf | Systus/SystusWriter.cpp:231-233 | One item per constraint of the set, tagged with the set's id. |
| SystusLists.FoldSpcsSnoc | Systus/SystusWriter.cpp:233-261 | Folding one more constraint is one more step. |
| SystusLists.FoldSpcsDofs | Systus/SystusWriter.cpp:238-247 | A node has DOFs iff it had some or an SPC covers it. They are its old DOFs joined with the DOFs, masked by the code, of every SPC covering it. |
| SystusLists.SpcStepDofs | Systus/SystusWriter.cpp:234-254 | The same, for one constraint. |
| SystusLists.FoldSpcsWithinCode | Systus/SystusWriter.cpp:243-246 | Every node's DOFs stay inside the DOF code. |
| SystusLists.FoldSpcsIds | Systus/SystusWriter.cpp:238-240 | A node has a row iff an SPC covers it. A row holds a Systus set id iff an SPC of that set covers the node. |
| SystusLists.SpcStepIds | Systus/SystusWriter.cpp:238-240 | The same, for one constraint. |
| SystusLists.OneMoreNodeDofs | Systus/SystusWriter.cpp:241-246 | One more node gets a fresh entry when it had none, and otherwise the union with its entry. |
| SystusLists.OneMoreNodeIds | Systus/SystusWriter.cpp:239-240 | One more node is one more entry in its row. |
| SystusWriting.ScanPosition | Systus/SystusWriter.cpp:104-108 | Every fixed-size cell type has a position in the scan array. |
| SystusWriting.ScanCellTypes | Systus/SystusWriter.cpp:104-126 | Option 3 iff some cell is of a scanned type of dimension at most 2 (one of POINT1..QUAD9), else 4; a mesh of polygons only gets 4. The result also gives the largest node count of a present type, or 0 when none is present. |
| SystusWriting.ScanTypes | Systus/SystusWriter.cpp:110-115 | For each type: whether the mesh has cells of it, and its node count if so, else 0. |
| SystusWriting.AnyBelow | Systus/SystusWriter.cpp:117-119 | True iff one of the first n flags is set. |
| SystusWriting.ScanSummary | Systus/SystusWriter.cpp:117-126 | The arrays' findings, read back as statements about the cells. |
| SystusWriting.MaxElement | Systus/SystusWriter.cpp:126 | An element of the array that no element exceeds. |
| SystusWriting.LowDimensionalScan | Systus/SystusWriter.cpp:117-124 | Option 3 iff some cell is of a scanned type of dimension at most 2. |
| SystusWriting.CollectLoads | Systus/SystusWriter.cpp:188-212 | The loops give the fold of the load step over every loading of the common load sets. |
| SystusWriting.CollectSetLoads | Systus/SystusWriter.cpp:191-211 | Fails iff a loading of the set is unsupported; otherwise it is the fold carried on. |
| SystusWriting.UnsupportedLoading | Systus/SystusWriter.cpp:208-209 | One unsupported loading anywhere makes the whole fold fail. |
| SystusWriting.CollectSpcs | Systus/SystusWriter.cpp:228-262 | The loops give the fold of the SPC step over every constraint of the common constraint sets. |
| SystusWriting.CollectSetSpcs | Systus/SystusWriter.cpp:232-261 | The fold carried on over one set's constraints. |
| SystusWriting.ApplySpc | Systus/SystusWriter.cpp:238-247 | The node loop of one SPC applies it at exactly its nodes. |
| SystusWriting.ApplyAtNodes | Systus/SystusWriter.cpp:238-247 | Applying at each node in turn applies at the set of those nodes. |
| SystusWriting.ListsInOrder | Systus/SystusWriter.cpp:214-218 | One list per node. |
| SystusWriting.NumberedLists | Systus/SystusWriter.cpp:214-218 | One list per node of the table. The constraint lists are numbered the same way at lines 264-268. |
| SystusWriting.NumberLists | Systus/SystusWriter.cpp:214-218 | The loop pushes the lists in ascending node order and records each node's list id. The constraint lists are numbered the same way at lines 264-268. |
| SystusWriting.NumberInOrder | Systus/SystusWriter.cpp:214-218 | The loop over the nodes in a given order. |
| SystusWriting.NumberedListsNumbered | Systus/SystusWriter.cpp:214-218 | One list per node. Ids run consecutively in ascending node order, and the list under a node's id holds that node's row. The constraint lists are numbered the same way at lines 264-268. |
| SystusWriting.ListsInOrderAt | Systus/SystusWriter.cpp:215-216 | The j-th list holds the j-th node's row under id `next + j`. |
| SystusWriting.IdsInOrderAt | Systus/SystusWriter.cpp:217 | The j-th node gets id `next + j`, and no other node gets an id. |
| SystusWriting.NumberedByPositions | Systus/SystusWriter.cpp:214-218 | Numbering nodes by their positions in an ascending sequence numbers them as stated. |
| SystusWriting.PositionsAscending | Systus/SystusWriter.cpp:214-218 | Smaller nodes get smaller list ids. |
| SystusWriting.ConstraintListsPass | Systus/SystusWriter.cpp:220-268 | When the option has a DOF code, the resulting tables in terms of the SPC fold. |
| SystusWriting.LoadListsFilledSpec | Systus/SystusWriter.cpp:188-218 | Fails iff a loading is unsupported, with nothing changed. Otherwise the old lists are followed by one list per loaded node, numbered from the counter, and only the lists, the counter and the load list ids change. |
| SystusWriting.ConstraintListsFilledSpec | Systus/SystusWriter.cpp:220-268 | Fails iff the option is neither 3 nor 4, with nothing changed. Otherwise the DOFs by node are those the SPCs give, one list per constrained node follows, and the load list ids stay as they were. |
| SystusWriting.ListsFilledOutcome | Systus/SystusWriter.cpp:186-269 | Filling the lists fails iff a loading is unsupported (nothing changed) or the option has no DOF code (the load half done). |
| SystusWriting.ListsFilledSpec | Systus/SystusWriter.cpp:186-269 | On success: the old lists, then the load lists numbered from the counter, then the constraint lists numbered from where the load lists stop. |
| SystusWriting.IdRange | Systus/SystusWriter.cpp:164 | Exactly the ids from lo up to lo + n. |
| SystusWriting.WithConsecutive | Systus/SystusWriter.cpp:163 | One position pushed per bar. RBE3 bar positions are pushed at line 178. |
| SystusWriting.WithConsecutiveAppends | Systus/SystusWriter.cpp:163 | Pushing positions one at a time appends a consecutive run. RBE3 bar positions are pushed at line 178. |
| SystusWriting.NodesAt | Systus/SystusWriter.cpp:150-151 | The nodes found at the positions, in order. RBE3 slaves are found at lines 174-175. |
| SystusWriting.WithLagrangeNodes | Systus/SystusWriter.cpp:152 | One Lagrange node added per slave. |
| SystusWriting.WithLagrangeNodesAppends | Systus/SystusWriter.cpp:150-153 | Adding the Lagrange nodes one at a time appends a copy of each slave. |
| SystusWriting.Rbe2Bars | Systus/SystusWriter.cpp:154-162 | One bar per slave: SEG3 with 3 nodes under option 3, SEG4 with 4 nodes under option 4. |
| SystusWriting.WithRbe2Bars | Systus/SystusWriter.cpp:150-165 | One cell added per slave. |
| SystusWriting.WithRbe2BarsAppends | Systus/SystusWriter.cpp:150-165 | Adding the RBE2 cells one at a time appends the bars. |
| SystusWriting.Rbe3Bars | Systus/SystusWriter.cpp:176-177 | One 2-node SEG2 bar per slave, starting at the master. |
| SystusWriting.WithRbe3Bars | Systus/SystusWriter.cpp:174-180 | One cell added per slave. |
| SystusWriting.WithRbe3BarsAppends | Systus/SystusWriter.cpp:174-180 | Adding the RBE3 cells one at a time appends the bars. |
| SystusWriting.RigidPositionsAt | Systus/SystusWriter.cpp:143-151 | The master and the slaves, in ascending order, are positions of existing nodes. RBE3 masters and slaves are found at lines 173-175. |
| SystusWriting.ShapedAfterAppend | Systus/SystusWriter.cpp:163 | Appending bars of a shape keeps the recorded positions pointing at bars of that shape. RBE3 bar positions are pushed at line 178. |
| SystusWriting.ShapedAfterGrowth | Systus/SystusWriter.cpp:163 | Recorded positions keep their shape as the cells grow. RBE3 bar positions are pushed at line 178. |
| SystusWriting.Rbe2Step | Systus/SystusWriter.cpp:138-165 | One RBE2's nodes, bars and group keep the progress invariant. |
| SystusWriting.Rbe3Step | Systus/SystusWriter.cpp:168-180 | One RBE3's bars and group keep the progress invariant. |
| SystusWriting.MasterRotation | Systus/SystusWriter.cpp:144-148 | Under option 4, one copy of the master under the given id; otherwise none. |
| SystusWriting.PositionsGrow | Systus/SystusWriter.cpp:143-151 | Masters and slaves that are positions of existing nodes stay so as nodes are added. |
| SystusWriting.Rbe2Nodes | Systus/SystusWriter.cpp:144-153 | The old nodes, kept, followed by the rotation node, if any, and one node per slave. |
| SystusWriting.Rbe2Cells | Systus/SystusWriter.cpp:154-162 | The old cells, kept, followed by one bar per slave. |
| SystusWriting.Rbe2Added | Systus/SystusWriter.cpp:141-165 | One RBE2's state change; no node is removed. |
| SystusWriting.Rbe2FieldsFrom | Systus/SystusWriter.cpp:144-165 | Adding the rotation node and then the slaves one at a time gives the nodes and cells of `Rbe2Added`. |
| SystusWriting.Rbe2AddedFrom | Systus/SystusWriter.cpp:141-165 | A state with the fields of one RBE2's bars is `Rbe2Added`. |
| SystusWriting.Rbe2AddedFields | Systus/SystusWriter.cpp:141-165 | Those fields agree with `Rbe2Added` field by field. |
| SystusWriting.Rbe3Added | Systus/SystusWriter.cpp:170-180 | One RBE3's state change; the nodes stay as they were. |
| SystusWriting.Rbe2Pass | Systus/SystusWriter.cpp:137-166 | The rigid constraints of a set in turn; no node is removed. |
| SystusWriting.Rbe2PassSnoc | Systus/SystusWriter.cpp:137-166 | One more constraint adds that constraint's RBE2 when it is rigid, and nothing otherwise. |
| SystusWriting.Rbe2PassStep | Systus/SystusWriter.cpp:137-166 | A state that follows the pass over some constraints by the next one's bars is the pass over one more. |
| SystusWriting.Rbe3Pass | Systus/SystusWriter.cpp:167-181 | The RBE3s of a set in turn; the nodes stay as they were. |
| SystusWriting.SetRbes | Systus/SystusWriter.cpp:136-181 | One set's RBE2 pass, then its RBE3 pass; no node is removed. |
| SystusWriting.AllRbes | Systus/SystusWriter.cpp:132-184 | The sets one after another; no node is removed. |
| SystusWriting.Rbe2AddedGenerated | Systus/SystusWriter.cpp:141-165 | One RBE2 keeps what the state had and adds one bar of the RBE2 shape per slave. |
| SystusWriting.Rbe2PassGenerated | Systus/SystusWriter.cpp:137-166 | The RBE2 pass keeps what the state had and adds one bar of the RBE2 shape per slave of each rigid constraint. |
| SystusWriting.Rbe3PassGenerated | Systus/SystusWriter.cpp:167-181 | The RBE3 pass keeps what the state had and adds one SEG2 bar per slave of each RBE3. |
| SystusWriting.AllRbesGenerated | Systus/SystusWriter.cpp:132-184 | Generating all the bars keeps the old nodes, cells, groups and positions as prefixes. It adds one bar per slave of each rigid body, of its kind's shape, and records its position. |
| SystusWriting.SystusWriter.constructor | Systus/SystusWriter.cpp:27-28 | No lists, no list ids, no DOFs by node, no bar positions. |
| SystusWriting.SystusWriter.GetSystusInformations | Systus/SystusWriter.cpp:102-130 | Option 3 iff some cell is of a scanned type of dimension at most 2, else 4. Also sets the largest node count of a present type (0 when none) and the node count of the mesh. |
| SystusWriting.SystusWriter.PushLists | Systus/SystusWriter.cpp:214-218 | Appends one numbered list per node and moves the counter past them. The constraint lists are pushed the same way at lines 264-268. |
| SystusWriting.SystusWriter.FillLists | Systus/SystusWriter.cpp:186-269 | The outcome and the new fields are `ListsFilled` of the old fields, whose properties `ListsFilledOutcome` and `ListsFilledSpec` state. |
| SystusWriting.SystusWriter.FillLoadLists | Systus/SystusWriter.cpp:188-218 | The outcome and the new fields are `LoadListsFilled` of the old fields. |
| SystusWriting.SystusWriter.FillConstraintLists | Systus/SystusWriter.cpp:220-268 | The outcome and the new fields are `ConstraintListsFilled` of the old fields. |
| SystusWriting.SystusWriter.AddRbe2Bars | Systus/SystusWriter.cpp:141-165 | One RBE2 adds: a rotation node copying the master under option 4, a Lagrange node copying each slave, one bar per slave, those bars' positions, and a group holding exactly their ids. |
| SystusWriting.SystusWriter.AddMasterRotation | Systus/SystusWriter.cpp:144-148 | Under option 4, appends a copy of the master and returns its id. Otherwise adds nothing and returns 0. |
| SystusWriting.SystusWriter.AddRbe2Slaves | Systus/SystusWriter.cpp:150-165 | The slave loop takes the progress from no slave to all slaves. |
| SystusWriting.SystusWriter.AddRbe2Bar | Systus/SystusWriter.cpp:151-164 | One slave's Lagrange node, bar, position and group entry. |
| SystusWriting.SystusWriter.AddRbe2Cell | Systus/SystusWriter.cpp:154-162 | Bar nodes are [master, slave, slaveLagr] as SEG3 under option 3, and [master, slave, masterRot, slaveLagr] as SEG4 under option 4. |
| SystusWriting.SystusWriter.AddRbe3Bars | Systus/SystusWriter.cpp:171-180 | One RBE3 adds a [master, slave] SEG2 bar per slave, their positions, and a group of their ids. No nodes are added. |
| SystusWriting.SystusWriter.AddRbe3Bar | Systus/SystusWriter.cpp:175-179 | One slave's bar, position and group entry. |
| SystusWriting.SystusWriter.GenerateRbes | Systus/SystusWriter.cpp:132-184 | The new nodes, cells, groups and bar positions are `AllRbes` of the old ones, whose properties `AllRbesGenerated` states. |
| SystusWriting.SystusWriter.GenerateSetRbes | Systus/SystusWriter.cpp:136-181 | One set: the new state is `SetRbes` of the old, its rigid constraints and then its RBE3s. |
| SystusWriting.SystusWriter.AddSetRigidBars | Systus/SystusWriter.cpp:137-166 | The new state is `Rbe2Pass` of the old: each rigid constraint's bars in turn. |
| SystusWriting.SystusWriter.AddSetRbe3Bars | Systus/SystusWriter.cpp:167-181 | The new state is `Rbe3Pass` of the old: each RBE3's bars in turn. |
| SystusWriting.Uncommon | Systus/SystusWriter.cpp:726-727 | Exactly the non-null sets that are uncommon. Constraint sets are filtered the same way at lines 733-734. |
| SystusWriting.NumberLoads | Systus/SystusWriter.cpp:720-739 | The counter starts at the number of common sets. Each uncommon load set, then each uncommon constraint set, takes the next number. |
| SystusWriting.AnalyseLoads | Systus/SystusWriter.cpp:747-748 | A static analysis combines loads 1 up to the counter. |
| SystusWriting.CombinedAreNumbered | Systus/SystusWriter.cpp:720-748 | The combined loads are the common ones, then the numbers the uncommon sets received, each once. |

## Left out

- Text and file output: the writer's text, file opening, `writeModel`, the section writers, and the constraint, load and assertion text. Only the values that decide that text are modelled.
- The Systus runner (`Systus/SystusRunner.cpp`): it runs a process and reads and writes files.
- `Abstract/MeshComponents.h` is declarations only. Its twenty-four cell types, its nodes and its cells are the vocabulary of `Meshes`. The node count of a polygonal or polyhedral cell is its own and is not modelled.
- The bodies of Model, Mesh, DOFS, Reference, ConstraintSet and SinglePointConstraint are not part of this model. Their operations carry abstract contracts: lookups return an Option, membership is an index from set to member ids, and a mesh appends at the next position under the next automatic id.
- Floating-point values (force and moment components, gravity, rotation speed, intensities): each is a "nonzero" flag, because the rules only ask whether a value is nonzero. `localToGlobal`, the coordinate-system transforms, `NodalForceTwoNodes::getForce`, `Gravity::getAcceleration`, every `scale` and the `is_zero` thresholds are left out.
- The two-node nodal force recomputes its force from node positions, which this model does not have. Its DOFs are those of its stored components, which are zero.
- Debug and warning output (`cout`/`cerr`). The constraint kinds `fillLists` only warns about are skipped, as in the source.
- Iteration order: a std::set of shared pointers is taken in ascending internal id, and a constraint set's members as a given sequence. Different orders give the same tables, except which id is kept for one node and one set.
- Node ids against node positions: the SPCs created by `removeSPCNodeDofs` use the node's id in the source. Here every constraint is keyed by node position, because the mesh's id-to-position lookup is not part of this model.
- Analysis identity: the source skips every analysis equal to the caller. Here the caller is designated by its position, and analyses are distinct objects.
- The list class's id allocator and `LoadSet::lastAutoId()` / `Loading::lastAutoId()` are parameters of the model: the first list id, and the two offsets.
- `writeDat`: only the load numbering and the static-analysis ANALYSE line are modelled. The modal branches only write text.
- SystusWriting.SystusWriter.GenerateRbes: requires option 3 or 4, which `getSystusInformations` always sets. It also requires the master and slaves of every rigid body to be existing node positions, which the source's `findNode` presupposes.
- Loadings.GetLoadingsByType: requires the membership to hold no null, because the source dereferences every member.
- SystusLists.FoldSpcsIds: states which nodes and Systus set ids have entries, but not which constraint id a row keeps under a set id. That is the last SPC of that set covering the node.
- Objectives: the parameter objectives (frequency values, frequency band, modal damping, nonlinear strategy) are data only. The model has their tags but not their numeric content.

