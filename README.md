# Diagram editor core, modelled in Dafny

This project models the logic underneath Pythom, a PyQt6 editor for
commutative diagrams. In the editor, Objects are named nodes on a grid and
arrows join them. Proof steps rewrite the diagram's labels, and every edit
goes through an undo stack. The model covers:

- **Cycle detection** (`cycle_detector.dfy`, module `CycleDetection`). A
  class `CycleDetector` runs the three-colour depth-first search with an
  explicit path. It is proved sound: every reported cycle is closed and
  follows arrows. It is proved complete: a graph with a directed cycle
  reports one. It also proves that every node turns gray once and that the
  search ends with every node black and the path empty.
  `get_cycle_arrows` is modelled too. One model covers
  `core/cycle_detector.py` and its identical copy `cycle_detector.py`.
- **Arrow routing** (`geometry.dfy`, `routing.dfy`, `arrows.dfy` for
  `widget/arrow.py`, `legacy_arrow.dfy` for the older `arrow.py`). This
  covers the parallel-and-overlapping tests with their thresholds, the
  curve offsets and Bézier control points, the self-loop side and
  geometry, segment intersection, the nearest boundary point, the style
  flags and the label-hiding rule. Arrows are classes whose fields the
  methods update in place.
- **Proof-step labels** (`composite.dfy`, `proof_labels.dfy`,
  `proof_steps.dfy`, `proof_command.dfy`). This covers the identity
  subscripts, identity cancellation to a fixpoint (proved to keep exactly
  the non-identity factors), the mapped-element notation, and the kernel
  "=0" marking. Each step's `apply`/`unapply` is modelled on the Objects
  and arrows it changes. `ProofStepCommand` runs the four label-rewriting
  steps on the undo stack.
- **Scene bookkeeping** (`scene.dfy`, `nodes.dfy`). This covers fresh
  names A..Z, A'..Z', …, grid snapping with Python's half-to-even `round`,
  the nearest-free-cell ring search, removal of incomplete arrows, arrow
  creation, and the Object's base-name and display-text split with its
  move-blocking `itemChange`.
- **Undo commands** (`deletion.dfy`, `undo_commands.dfy` for
  `core/undo_commands.py`, `legacy_undo.dfy` for `undo_commands_new.py`).
  This covers rename, move, place, flip and delete with its cascade of
  touching arrows. Each command comes with a redo-then-undo round trip.
  The stand-alone `FlipArrowCommand` files (`core/flip_arrow_command.py`,
  `flip_arrow_command.py`) are the same class as the one in
  `core/undo_commands.py`, and one model serves all three.
- **Window and dialogs** (`main_window.dfy`, `rename_dialogs.dfy`,
  `element_select.dfy`). This covers diagram names, the automatic
  grid-spacing rule, the window title, tab closing, the name-builder
  dialogs and element-list parsing.

`wrappers.dfy` holds `Option` and `text.dfy` models the Python string
operations used by the core: `find`, `rfind`, `split`, `strip` and `in`.

Design choices:

- Coordinates are `real`, so the arithmetic is exact.
- `math.sqrt` is a function parameter `sqrt` constrained by `IsSqrt`: the
  result is non-negative and squares back to its argument.
- Arrows are ordered by an abstract integer key where the source sorts by
  `id()`; keys are assumed distinct where a lemma needs it.
- The composition symbol is a three-character garbled sequence in
  `core/proof_step.py`, produced by a wrong text encoding. It is modelled
  exactly as written: the separator `Sep` is those three characters, and
  the class `[^…]` refuses any one of them.
- Dialogs enter as parameters: the name a dialog returns, `None` when it
  is cancelled.
- An exception a step raises is a returned flag.
- The window title rule has a quirk. An unmodified window whose file is
  named "* notes" shows a leading "* ", because the title is built as
  name + " - " + title (`MainWindow.TitleParts` states the exact condition).

## Model

| member | source | states |
|---|---|---|
| Text.Find | core/proof_step.py:631 | the first index of a character, -1 exactly when it is absent |
| Text.RFind | core/proof_step.py:631-633 | `str.rfind`: the last index of a character, -1 exactly when it is absent |
| Text.ContainsAt | core/proof_step.py:627 | the substring test `'=0' in s` holds exactly when the pattern occurs at some index |
| Text.SplitJoinsBack | core/proof_step.py:740 | `str.split` on a character gives pieces free of it that join back to the text |
| Text.SplitJoin | core/proof_step.py:740 | splitting a join of pieces free of the separator gives the pieces back |
| Text.Before | core/proof_step.py:739 | the part before the first ':' (all of the text when there is none) is free of it and a prefix of the text |
| Text.After | core/proof_step.py:739 | the text is the part before the first ':', the ':' and the part after it |
| Text.StripSlice | core/proof_step.py:288 | `str.strip` removes exactly the leading and trailing white space and leaves a trimmed slice of the text |
| Text.StripIdempotent | core/proof_step.py:740 | stripping twice is the same as once |
| Text.Repeat | diagram_scene.py:185 | `c * n` is n copies of c |
| CycleDetection.SuccessorsMembership | core/cycle_detector.py:54-69 | `w` is a successor of `u` in the built list exactly when some arrow with both ends among the nodes goes from `u` to `w` |
| CycleDetection.SuccessorsKeepDuplicates | core/cycle_detector.py:63-67 | parallel arrows are not merged: `w` occurs among `u`'s successors once per such arrow |
| CycleDetection.AdjacencyEdges | core/cycle_detector.py:54-69 | the edges of the adjacency list are exactly the arrows whose start and end are both listed nodes |
| CycleDetection.AdjacencyClosed | core/cycle_detector.py:58-60 | the adjacency list has one entry per node and every successor is itself a node of the list |
| CycleDetection.SelfLoopIsCycle | core/cycle_detector.py:63-67 | a self-loop arrow on a listed node is a directed cycle `[n, n]` of the graph |
| CycleDetection.IndexOf | core/cycle_detector.py:87 | `list.index`: the first position holding the value |
| CycleDetection.BackEdgeCycle | core/cycle_detector.py:85-89 | the path slice from the gray successor, plus that successor, is a closed walk whose nodes (without the repeated end) are distinct |
| CycleDetection.EmptyLists | core/cycle_detector.py:58-60 | the first loop gives every node, and nothing else, an empty successor list |
| CycleDetection.BuildAdjacencyList | core/cycle_detector.py:54-69 | the loop over the arrows builds exactly the adjacency list defined by the arrows, in arrow order |
| CycleDetection.FirstJoining | core/cycle_detector.py:116-122 | the index of the first arrow from `s` to `e`, and none when no arrow joins them |
| CycleDetection.GetCycleArrows | core/cycle_detector.py:97-125 | fewer than two nodes give no arrows; otherwise one arrow, the first joining it, per consecutive pair that has one, so at most one per pair |
| CycleDetection.CycleArrowsOfDetectedCycle | core/cycle_detector.py:97-125 | for a cycle the detector reports, every consecutive pair gets its arrow, so the highlight has exactly `len(cycle) - 1` arrows, the i-th joining pair i |
| CycleDetection.RankedIsAcyclic | core/cycle_detector.py:71-95 | a graph whose edges all go down in some rank (the finishing order of the search) has no directed cycle |
| CycleDetection.SearchOutcome | core/cycle_detector.py:26-52 | when every node is black, each recorded cycle is genuine and simple, and none is recorded exactly when the graph is acyclic |
| CycleDetection.Visited | core/cycle_detector.py:71-95 | the visit on values: colours only move forward and the visited node ends black |
| CycleDetection.NeighborsVisited | core/cycle_detector.py:83-91 | the successor loop on values: colours only move forward |
| CycleDetection.NeighborVisited | core/cycle_detector.py:84-91 | one successor on values: colours only move forward |
| CycleDetection.Searched | core/cycle_detector.py:47-50 | the outer loop on values keeps one colour per node of the graph |
| CycleDetection.CycleDetector.constructor | core/cycle_detector.py:17-24 | a new detector has no colours, parents or cycles |
| CycleDetection.CycleDetector.Reset | core/cycle_detector.py:20-24 | colours, parents and cycles of an earlier search are forgotten |
| CycleDetection.CycleDetector.DfsVisit | core/cycle_detector.py:71-95 | visiting a white node ends with it black and finished, colours only move forward, cycles are only appended, and the path is restored; the colours and cycles it leaves are exactly `Visited` of those it found |
| CycleDetection.CycleDetector.VisitNeighbors | core/cycle_detector.py:83-91 | after the successor loop, every successor has finished unless a cycle was recorded, and colours and cycles are exactly `NeighborsVisited` from the first successor |
| CycleDetection.CycleDetector.MarkGray | core/cycle_detector.py:80-81 | the node turns gray and is pushed on the current path |
| CycleDetection.CycleDetector.MarkBlack | core/cycle_detector.py:93-95 | the node turns black, takes the next finishing time, and is popped off the path |
| CycleDetection.CycleDetector.VisitNeighbor | core/cycle_detector.py:84-91 | turn `i` of the successor loop: a gray successor closes a recorded cycle, a white one is visited; the successors so far have finished unless a cycle was recorded, and what remains of the loop on values is unchanged by the turn |
| CycleDetection.CycleDetector.FindCycles | core/cycle_detector.py:20-52 | the result is `Cycles(nodes, arrows)`, a function of the input alone, so the reset makes any earlier search irrelevant and two calls on the same input return the same list; every returned cycle is a closed walk of the arrow graph with distinct nodes apart from the repeated end; the result is empty exactly when the graph has no directed cycle; every node ends black with no parent |
| CycleDetection.CycleDetector.SearchAll | core/cycle_detector.py:47-50 | the loop starting a visit from each node still white leaves every node black, with colours and cycles exactly `Searched` from the first node |
| CycleDetection.CycleDetector.SearchFrom | core/cycle_detector.py:48-50 | one turn of that loop blackens its node, keeps the earlier nodes black and leaves the rest of the loop on values unchanged |
| CycleDetection.CycleDetector.InitStates | core/cycle_detector.py:39-42 | every listed node, and no other, starts white with no parent |
| CycleDetection.DetectCycles | diagram_scene.py:443-473 | what the scene obtains from a fresh search: `Cycles` of its objects and arrows, so the same diagram always gives the same cycles; genuine simple cycles, and none exactly when the diagram is acyclic |
| Geometry.RoundHalfEven | diagram_scene.py:96-97 | Python's `round`: the result is within one half of its argument, and an exact tie goes to the even integer |
| Geometry.RoundIsNearest | diagram_scene.py:96-97 | no integer is strictly closer to the argument than the rounded value |
| Grid.SnapCoord | diagram_scene.py:96-97 | a snapped coordinate is a multiple of the grid size at most half a cell from the original |
| Grid.SnapIsNearGridPoint | diagram_scene.py:93-100 | `snap_to_grid` lands on a grid intersection at most half a cell away on each axis |
| Grid.SnapIdempotent | diagram_scene.py:93-100 | a grid point snaps to itself, so snapping twice is snapping once |
| Arrows.ToggleKeepsGeneralExclusive | widget/arrow.py:1325-1370 | no style toggle lets the general style share an arrow with another style |
| Arrows.ToggleKeepsKernelInclusion | widget/arrow.py:1325-1334 | a kernel arrow that is an inclusion stays one whatever is toggled |
| Arrows.KernelIgnoresToggles | widget/arrow.py:1325-1344 | the inclusion, monomorphism and general toggles leave a kernel arrow's styles unchanged |
| Arrows.ToggleTwiceRestores | widget/arrow.py:1325-1357 | on an arrow that is not general, toggling one of the four styles twice restores its styles |
| Arrows.GeneralToggleSettles | widget/arrow.py:1359-1370 | the general toggle makes a non-kernel arrow general only, and a second general toggle changes nothing |
| Arrows.MenuTogglesTakeEffect | widget/arrow.py:1451-1505 | every style entry of the context menu changes the styles when chosen (the general one exactly when the arrow is not general); the entries a kernel arrow's menu omits are exactly the toggles that do nothing to it |
| Arrows.StyledPen | widget/arrow.py:1396-1410 | the "there exists" pen is the solid pen's colour and width, dashed; otherwise the solid pen itself |
| Arrows.DisplayedText | widget/arrow.py:1259-1263 | an isomorphism shows its text after "~ ", any other arrow its text as is |
| Arrows.DisplayedTextRecoversText | widget/arrow.py:1259-1263 | removing the two-character "~ " marker from an isomorphism's label gives its text back |
| Arrows.HidesLabelOnlyForZero | widget/arrow.py:1288-1302 | a label hides only for an arrow named "0", and always when that arrow's source or target is named "0"; an arrow without nodes never hides it |
| Arrows.ArrowLine | widget/arrow.py:573-585 | an arrow has a line exactly when it has both nodes |
| Arrows.ViewsOf | widget/arrow.py:535-556 | the routing view of each arrow of a list, one per arrow in order |
| Arrows.ParallelViews | widget/arrow.py:535-556 | the arrows kept are exactly the other arrows of the list with both nodes whose line is parallel to and overlaps this arrow's line |
| Arrows.AreParallelSymmetric | widget/arrow.py:562-571 | `_are_parallel` gives the same answer whichever of the two arrows asks |
| Arrows.LooseArrowStandsAlone | widget/arrow.py:535-561 | an arrow without both nodes has only itself in its parallel set |
| Arrows.Sharing | widget/arrow.py:815-847 | the parallel arrows kept are exactly those sharing both nodes with this arrow, in either direction (or exactly the others) |
| Arrows.NoneSharingKeepsAll | widget/arrow.py:842-847 | when no parallel arrow shares both nodes, the non-sharing list is the whole list |
| Arrows.KeyRank | widget/arrow.py:804-808 | the index of an arrow in its group sorted by `id` is the number of group members with a smaller key, at most the group's size |
| Arrows.RankBelowSize | widget/arrow.py:802-808 | an arrow's index in a group it belongs to is below the group's size |
| Arrows.SortedIndex | widget/arrow.py:802-809 | the index `all_arrows.index(self)` lies within the group |
| Arrows.PlanGroupCurve | widget/arrow.py:814-838 | the curve chosen for an arrow with parallel arrows is the group's curve: a symmetric fan-out among the arrows sharing both nodes, else the visual-overlap rules |
| Arrows.PlanOverlapCurve | widget/arrow.py:840-920 | an arrow that no non-sharing parallel arrow overlaps visually stays straight; otherwise it bends by the same-direction or mixed-direction rule |
| Arrows.FilterSharing | widget/arrow.py:815-847 | each filtering loop returns exactly the arrows that do (or do not) share both nodes, in order |
| Arrows.SharedPairCurvesApart | widget/arrow.py:821-830 | two arrows that share both nodes and are each other's only such partner curve apart, one by +30 and the other by -30 |
| Arrows.StoredDirectionIsNormal | widget/arrow.py:868-889 | a stored curve direction comes only from a same-direction group: the offset is at least 30, and the direction is perpendicular to the arrow's line and of length one for a line of non-zero length |
| Arrows.NoVisualOverlapStaysStraight | widget/arrow.py:849-854 | an arrow sharing no nodes with its parallel arrows, none of which overlaps it visually, is drawn straight |
| Arrows.LooseArrowIsStraight | widget/arrow.py:783-790 | an arrow outside a scene or without both nodes has no parallel arrows and is drawn straight |
| Arrows.ParallelSetItems | widget/arrow.py:557-561 | the parallel set is the arrow together with the arrows `_find_parallel_arrows` returns |
| Arrows.ArrowItem.constructor | widget/arrow.py:17-90 | a new arrow is grey, 2 wide, solid and general only, not kernel, not "there exists", not highlighted; its label shows unless the zero rule hides it; it is a self-loop exactly when both nodes are one node, and it is placed between its nodes |
| Arrows.ArrowItem.GetText | widget/arrow.py:1259-1263 | the text shown is the base name, after "~ " for an isomorphism |
| Arrows.ArrowItem.GetBaseName | widget/arrow.py:1284-1286 | the base name is the stored text, without the isomorphism marker |
| Arrows.ArrowItem.SetText | widget/arrow.py:1265-1273 | the text becomes the new text |
| Arrows.ArrowItem.SetBaseName | widget/arrow.py:1275-1282 | the name changes; the label's visibility is recomputed only when the name really changed |
| Arrows.ArrowItem.UpdateLabelVisibility | widget/arrow.py:1304-1309 | the label shows exactly when the zero rule does not hide it |
| Arrows.ArrowItem.ToggleLabelVisibility | widget/arrow.py:1372-1375 | the manual hiding flag flips |
| Arrows.ArrowItem.SetThereExists | widget/arrow.py:1311-1315 | the state is set and the pen, and the pen restored after highlighting, become the styled pen for it |
| Arrows.ArrowItem.ToggleThereExists | widget/arrow.py:1321-1323 | the state flips and the pen follows it |
| Arrows.ArrowItem.UpdatePenStyle | widget/arrow.py:1396-1410 | the pen and the original pen are the solid pen, dashed for "there exists" |
| Arrows.ArrowItem.ToggleInclusion | widget/arrow.py:1325-1333 | the styles become the toggled styles, which keeps the general style exclusive and a kernel arrow unchanged |
| Arrows.ArrowItem.ToggleMonomorphism | widget/arrow.py:1335-1343 | as for inclusion, for the monomorphism style |
| Arrows.ArrowItem.ToggleEpimorphism | widget/arrow.py:1345-1350 | the epimorphism style flips on any arrow, clearing the general style when it turns on |
| Arrows.ArrowItem.ToggleIsomorphism | widget/arrow.py:1352-1357 | the isomorphism style flips on any arrow, clearing the general style when it turns on |
| Arrows.ArrowItem.ToggleGeneral | widget/arrow.py:1359-1370 | a non-kernel arrow that is not general becomes general only; otherwise nothing changes |
| Arrows.ArrowItem.SetAsKernelArrow | widget/arrow.py:1381-1390 | the arrow becomes a kernel arrow whose only style is inclusion |
| Arrows.ArrowItem.SetHighlightColor | widget/arrow.py:1551-1562 | a colour draws the arrow 4 wide in that colour with a head of that colour; no colour restores the original pen and brush |
| Arrows.ArrowItem.ClearHighlightColor | widget/arrow.py:1564-1566 | the original pen and brush are back and no highlight is set |
| Arrows.ArrowItem.GetSource | widget/arrow.py:1412-1414 | the source node |
| Arrows.ArrowItem.GetTarget | widget/arrow.py:1416-1418 | the target node |
| Arrows.ArrowItem.EditName | widget/arrow.py:1518-1531 | a rename is requested exactly when the dialog was accepted with a non-empty name different from the current one, and it carries that name |
| Arrows.ArrowItem.FindParallelArrows | widget/arrow.py:535-555 | the arrows found are exactly the parallel views the specification function selects, in scene order |
| Arrows.ArrowItem.GetParallelSet | widget/arrow.py:557-560 | the arrow comes first, and as a set the result is the arrow's parallel set |
| Arrows.ArrowItem.AreParallel | widget/arrow.py:562-571 | true exactly when the other arrow has both nodes and both arrows have the same parallel set of more than one arrow |
| Arrows.ArrowItem.PlanCurve | widget/arrow.py:781-920 | the curve decided equals the curve plan computed from the scene's arrows |
| Arrows.ArrowItem.CalculateBezierControlPoints | widget/arrow.py:925-971 | control points stay put for a straight arrow or an end point at the origin; otherwise they sit at 0.3 and 0.7 along the line, pushed by the offset along the stored direction or the line's unit normal |
| Arrows.ArrowItem.ApplyCurve | widget/arrow.py:781-923 | the arrow shows the planned curve: straight with offset 0, or curved with that offset and direction and bent control points |
| Arrows.ArrowItem.UpdateCurvePositioning | widget/arrow.py:781-923 | the arrow shows the curve planned from the scene as it was on entry |
| Arrows.ArrowItem.UpdateSelfLoopPosition | widget/arrow.py:425-466 | the self-loop lies on the side `_find_best_loop_side` chooses, and the arrow is marked a self-loop |
| Arrows.ArrowItem.UpdateNormalArrowPosition | widget/arrow.py:411-423 | as intended (see Findings, widget/arrow.py:1051): each end point is where the line between the node centres leaves its node |
| Arrows.ArrowItem.UpdatePosition | widget/arrow.py:394-409 | as intended (see Findings, widget/arrow.py:1051): nothing changes without both nodes; one node gives the self-loop and leaves the curve alone; two nodes give edge points and the planned curve and leave the loop alone |
| Arrows.ArrowItem.SetNodes | widget/arrow.py:1102-1130 | as intended (see Findings, widget/arrow.py:1051): the arrow is attached to the new nodes, placed as `UpdatePosition` places it, and its label shows exactly when the zero rule does not hide it |
| Arrows.ArrowItem.Reconnect | widget/arrow.py:1114-1127 | the new nodes are set and the arrow is placed between them |
| Routing.LineSegmentIntersection | widget/arrow.py:1067-1088 | no point when the denominator's magnitude is below 1e-10; a returned point lies on the line through p1 and p2 and on the segment p3p4 at a parameter in [0, 1] |
| Routing.RayHitAhead | widget/arrow.py:1044-1059 | an accepted boundary hit lies ahead of the centre: its offset has positive dot product with the direction to the target |
| Routing.ClosestIsNearest | widget/arrow.py:1040-1065 | the scan keeps nothing exactly when no segment is hit, and otherwise the hit on a segment holding the nearest hit, every earlier segment's hit being strictly farther (first found wins a tie) |
| Routing.ClosestPointOnBoundary | widget/arrow.py:1026-1065 | as intended (see Findings, widget/arrow.py:1051): returns the nearest hit ahead of the centre, the first found winning a tie, and the centre itself when the target is the centre or no segment is hit |
| Routing.NothingHitFromTarget | widget/arrow.py:1029-1034 | a target equal to the centre gives no direction, so no segment is hit |
| Routing.EdgePointIsNearestHit | widget/arrow.py:973-1002 | the edge point is a boundary point; it is the centre when nothing is hit, and otherwise, for a target not within 0.001 of the centre, the nearest hit on the node's boundary |
| Routing.EdgeIntersection | widget/arrow.py:973-1002 | as intended (see Findings, widget/arrow.py:1051, which keeps a hit at the origin): `_get_edge_intersection` returns the edge point of the ray from the node centre towards the other node |
| Routing.UnitNormal | widget/arrow.py:937-948 | the normal used for the curve is perpendicular to the arrow, of unit length for distinct ends, and zero when the ends coincide |
| Routing.BezierControlPoints | widget/arrow.py:952-971 | the two control points sit at 0.3 and 0.7 along the arrow, both shifted by offset times the normal, so cp2 - cp1 = 0.4 (end - start) |
| Routing.StraightControlPoints | widget/arrow.py:952-971 | with a zero offset both control points lie on the line of the arrow |
| Routing.GroupOffsetMirror | widget/arrow.py:821-830 | in a group the offsets are symmetric: index i gets the negation of index n-1-i (a pair gets +30 and -30) |
| Routing.GroupOffsetInjective | widget/arrow.py:821-830 | distinct indices of one group get distinct offsets, so no two arrows of a group coincide |
| Routing.SumOffsetsClosed | widget/arrow.py:827-830 | the closed form of the sum of the first k offsets (i - (n-1)/2) * 30 |
| Routing.GroupOffsetsSumToZero | widget/arrow.py:821-830 | the offsets of a whole group sum to zero |
| Routing.SelfLoop | widget/arrow.py:425-466 | the loop radius is 0.6 max(w, h); the end points are 20 apart across the chosen edge, symmetric about its midpoint; the loop centre lies one radius outward from that midpoint |
| Routing.BestLoopSide | widget/arrow.py:467-500 | 'top' without a scene; otherwise a side with the fewest occupants, every side earlier in the order top, bottom, left, right having strictly more |
| Routing.ProjectionOverlapSymmetric | widget/arrow.py:672-691 | the projection overlap test does not depend on the order of the two segments |
| Routing.ProjectionGapSeparates | widget/arrow.py:672-691 | two projected segments at least 5 apart never overlap |
| Routing.ProjectionOverlapThreshold | widget/arrow.py:685-691 | an overlap of exactly 10 is not an overlap, and one of 10.5 is |
| Routing.ParallelReflexive | widget/arrow.py:587-600 | a line is parallel to itself and to its reverse, through the coinciding-endpoints test |
| Routing.ParallelCriterion | widget/arrow.py:587-625 | for lines without coinciding endpoints, grouping holds iff both vectors are at least 1e-6 long, the cross product is at most 1e-3 times the product of the lengths, and the lines overlap |
| Routing.ShortTest | widget/arrow.py:604-609 | the length test against 1e-6 is the squared-length test against 1e-12 |
| Routing.CrossTest | widget/arrow.py:611-616 | the cross-product test against 1e-3 of the product of lengths is its squared form |
| Routing.WouldVisuallyOverlap | widget/arrow.py:714-760 | true iff some other arrow's line overlaps this one's visually (parallel and overlapping, midpoint within 6 across) |
| Routing.SameLineOverlapsVisually | widget/arrow.py:714-760 | an arrow of positive length overlaps visually with an arrow along the same line |
| Routing.AllSameDirection | widget/arrow.py:856-866 | true iff every other arrow's vector has a non-negative dot product with this arrow's |
| Routing.DirectionFactorReverses | widget/arrow.py:773-779 | reversing an arrow negates its direction factor x + 1000 y |
| Routing.OppositePairCurvesApart | widget/arrow.py:893-906 | two opposite arrows with different direction factors get offsets of opposite sign, so they curve apart |
| Routing.MixedOffsetMagnitude | widget/arrow.py:907-916 | in a mixed-direction group of other than two arrows, flipping for a backward arrow keeps the offset's magnitude |
| Routing.SameDirectionOffsetsFanOut | widget/arrow.py:868-889 | same-direction offsets 30 (i + 1) are positive and strictly increase with the index |
| Routing.RayHitAsWritten | widget/arrow.py:1044-1059 | the test as written, `if intersection:`: it agrees with the ray hit except that a hit at (0, 0) is dropped |
| Routing.OriginHitDropped | widget/arrow.py:1044-1059 | a node centred at (40, 0) whose left edge passes through the origin, aimed at (-100, 0): the ray hits the edge at (0, 0), which the test as written drops |
| LegacyArrows.LinksIn | arrow.py:460-475 | every scene arrow that is not a self-loop and has both ends in {X, Y} is collected, and nothing more than the scene holds |
| LegacyArrows.LinksInSource | arrow.py:460-475 | each collected arrow comes from a scene entry joining X and Y |
| LegacyArrows.LinksInFromScene | arrow.py:460-475 | every collected arrow is linked in the scene between X and Y |
| LegacyArrows.Without | arrow.py:436-446 | removing the arrow itself keeps exactly the other entries |
| LegacyArrows.LoneSet | arrow.py:448-458 | outside a scene, without both ends, or for a self-loop, the parallel set is the arrow alone |
| LegacyArrows.AreParallelSymmetric | arrow.py:477-486 | `_are_parallel` is symmetric |
| LegacyArrows.ParallelMeansSamePair | arrow.py:477-486 | two parallel arrows are both proper (two distinct ends) and join the same unordered pair of nodes |
| LegacyArrows.SamePairAreParallel | arrow.py:448-486 | two different scene arrows joining the same two distinct nodes, in either direction, are parallel |
| LegacyArrows.LinksInSamePair | arrow.py:468-473 | the collected set depends only on the unordered pair {X, Y} |
| LegacyArrows.LinksInNoDuplicates | arrow.py:460-475 | a scene listing each arrow once yields a parallel set without duplicates |
| LegacyArrows.WithoutOnce | arrow.py:436-446 | removing the arrow itself from a duplicate-free set drops exactly one entry, and one from the count of smaller keys when its key is smaller |
| LegacyArrows.CountBelowGrows | arrow.py:502-506 | a larger sort key has strictly more arrows of the group below it |
| LegacyArrows.OffsetInGroup | arrow.py:488-520 | an arrow in a group of several gets the group offset of its rank by key in the whole group |
| LegacyArrows.SharedGroup | arrow.py:477-486 | two parallel arrows share one duplicate-free parallel set of more than one arrow |
| LegacyArrows.ParallelArrowsCurveApart | arrow.py:488-520 | two different parallel arrows both curve, with different offsets, so they never draw on top of each other |
| LegacyArrows.LoneArrowIsStraight | arrow.py:488-496 | outside a scene, without both ends or as a self-loop, an arrow gets no offset and stays straight |
| LegacyArrows.Arrow.constructor | arrow.py:14-58 | as intended (see Findings, widget/arrow.py:1051 and arrow.py:643): a new arrow keeps its nodes (none by default) and text ("a" by default), starts straight with offset 0 and control points at the origin, keeps the default (0,0)-(100,0) line and radius 50 without both nodes, and is placed as a loop or between node edges otherwise |
| LegacyArrows.Arrow.Drawn | arrow.py:90-103 | nothing is drawn while either end point is the origin, a null `QPointF` being false; otherwise a self-loop is drawn as a loop, a curved arrow as a curve, anything else as a straight line |
| LegacyArrows.Arrow.GetText | arrow.py:717-719 | returns the arrow's text |
| LegacyArrows.Arrow.SetText | arrow.py:721-724 | replaces the arrow's text |
| LegacyArrows.Arrow.GetSource | arrow.py:726-728 | returns the start node |
| LegacyArrows.Arrow.GetTarget | arrow.py:730-732 | returns the end node |
| LegacyArrows.Arrow.GetParallelSet | arrow.py:448-475 | returns the parallel set of the arrow's current ends in the current scene |
| LegacyArrows.Arrow.FindParallelArrows | arrow.py:436-446 | returns the parallel set without the arrow itself, and nothing outside a scene or without both ends |
| LegacyArrows.Arrow.AreParallel | arrow.py:477-486 | true iff the other arrow has both ends and the two parallel sets are equal with more than one arrow |
| LegacyArrows.Arrow.CalculateBezierControlPoints | arrow.py:525-563 | leaves the control points alone when straight or when an end point is at the origin; otherwise places them at 0.3 and 0.7 along the arrow, shifted by the offset along the unit normal |
| LegacyArrows.Arrow.PlanOffset | arrow.py:488-520 | computes the offset the parallel arrows call for: none without parallels, +30/-30 for a pair, (i - (n-1)/2) 30 by key rank otherwise |
| LegacyArrows.Arrow.ApplyOffset | arrow.py:490-523 | no offset makes the arrow straight with offset 0; an offset curves the arrow and places the control points for it |
| LegacyArrows.Arrow.UpdateCurvePositioning | arrow.py:488-523 | the arrow shows the offset planned from its parallel arrows |
| LegacyArrows.Arrow.UpdateSelfLoopPosition | arrow.py:325-366 | the arrow becomes a loop placed on the best side of its node, painted as a loop unless an end point falls on the origin |
| LegacyArrows.Arrow.UpdateNormalArrowPosition | arrow.py:311-323 | as intended (see Findings, widget/arrow.py:1051 and arrow.py:643): each end point is where the line between the two node centres leaves its node |
| LegacyArrows.Arrow.UpdatePosition | arrow.py:294-310 | as intended (see Findings, widget/arrow.py:1051 and arrow.py:643): nothing without both nodes; a loop for one node, the curve fields kept; otherwise end points on the node edges and the planned offset, the loop fields kept |
| LegacyArrows.Arrow.UpdateNormalArrowAndCurve | arrow.py:301-305 | as intended (see Findings, widget/arrow.py:1051 and arrow.py:643): end points on the node edges, then the offset the parallel arrows call for |
| LegacyArrows.Arrow.SetNodes | arrow.py:694-711 | as intended (see Findings, widget/arrow.py:1051 and arrow.py:643): the arrow takes the new nodes and is repositioned for them as `update_position` does |
| Scene.Primes | diagram_scene.py:185 | the apostrophe suffix for count k is exactly k apostrophes |
| Scene.CandidateAt | diagram_scene.py:183-186 | the candidate with k apostrophes and letter index j is that letter followed by k apostrophes, of length k + 1 |
| Scene.CandidateInjective | diagram_scene.py:180-192 | the search order A..Z, A'..Z', ... never repeats a name |
| Scene.FirstFreeUnique | diagram_scene.py:176-192 | at most one name is the first unused name in the search order |
| Scene.NextAvailableName | diagram_scene.py:176-219 | the returned name is unused and every name before it in the search order is used (the search ends because the existing names are finitely many) |
| Scene.SnappedCells | diagram_scene.py:515-520 | the grid cell each Object snaps to, Object by Object |
| Scene.Ring | diagram_scene.py:540-543 | the ring of an offset is its Chebyshev distance: the largest of abs(dx), abs(dy) |
| Scene.EarlierRingStart | diagram_scene.py:539-541 | before the first cell of ring r the scan has visited exactly the cells of the smaller rings |
| Scene.EarlierStep | diagram_scene.py:541-543 | each step of the column scan adds exactly the current cell when it lies on the ring |
| Scene.EarlierNextColumn | diagram_scene.py:540-541 | finishing a column with every visited ring cell taken moves on to the next column's first cell |
| Scene.EarlierRingEnd | diagram_scene.py:539-541 | after the last column of ring r the scan has visited every cell of rings up to r |
| Scene.OffsetIsGridPoint | diagram_scene.py:544-546 | a snapped point moved by whole grid steps is still a grid point |
| Scene.SnapWholeCells | diagram_scene.py:93-100 | a whole multiple of the grid size snaps to itself |
| Scene.Complete | diagram_scene.py:415-434 | the arrows kept are exactly those with both a source and a target, in order |
| Scene.RemoveItem | diagram_scene.py:394-397 | removing an arrow keeps exactly the other entries |
| Scene.RemoveIncomplete | diagram_scene.py:415-429 | removing every collected incomplete arrow leaves exactly the complete arrows |
| Scene.IncompleteMembers | diagram_scene.py:415-425 | an arrow is collected iff it is in the scene and lacks its source or its target |
| Scene.CollectIncomplete | diagram_scene.py:415-425 | the first loop of `_validate_arrows_and_cycles` collects the incomplete arrows in scene order |
| Scene.DiagramScene.constructor | diagram_scene.py:19-44 | a new scene is empty with grid size 150, grid hidden, both counters 0 and no arrow under construction |
| Scene.DiagramScene.GatherObjectNames | diagram_scene.py:167-174 | the set of the Objects' texts, exactly |
| Scene.DiagramScene.GatherArrowNames | diagram_scene.py:194-201 | the set of the arrows' texts, exactly |
| Scene.DiagramScene.NextAvailableObjectName | diagram_scene.py:176-192 | the first of A..Z, A'..Z', ... that no Object uses |
| Scene.DiagramScene.NextAvailableArrowName | diagram_scene.py:203-219 | the first of a..z, a'..z', ... that no arrow uses |
| Scene.DiagramScene.IsGridPositionOccupied | diagram_scene.py:506-524 | true iff some Object snaps to the same grid point as the query |
| Scene.DiagramScene.FindNearestFreeGridPosition | diagram_scene.py:526-557 | the snapped point when free; otherwise the first free cell of rings 1..19 in dx-then-dy order, or the snapped point when all of them are taken |
| Scene.DiagramScene.SearchRings | diagram_scene.py:539-557 | the first free cell over rings 1..19, or the start when every ring below 20 is taken |
| Scene.DiagramScene.ScanRing | diagram_scene.py:540-550 | the first free cell of one ring in scan order, or the report that the whole ring is taken |
| Scene.DiagramScene.ScanColumn | diagram_scene.py:541-550 | the first free ring cell of one column, every earlier visited ring cell being taken |
| Scene.DiagramScene.ValidateArrows | diagram_scene.py:410-429 | only the arrows with both a source and a target remain, in order |
| Scene.DiagramScene.RemoveArrows | diagram_scene.py:427-432 | removes each collected arrow from the scene |
| Scene.DiagramScene.CancelArrowCreation | diagram_scene.py:394-408 | the arrow under construction (if any) leaves the scene, the creation state is cleared, and incomplete arrows are removed |
| Scene.DiagramScene.FinishArrowCreation | diagram_scene.py:559-602 | with an arrow under construction and another end node, the arrow takes the first free arrow name, is handed over for placement, and the pushed command's redo puts it back in the scene on the start node and the end node before incomplete arrows are removed, so it stays whenever it has a start node; the counter grows by one; a self-loop or no arrow under construction cancels instead, leaving counter and arrow alone; either way the creation state ends |
| Scene.DiagramScene.PlaceCurrentArrow | diagram_scene.py:571-597 | the arrow is named with the first free arrow name among the other arrows, handed over for placement and, by the redo that `QUndoStack.push` runs, put back in the scene between the start node and the end node; the complete arrows remain, the counter grows by one and the creation state ends |
| Scene.DiagramScene.RedoPlacement | undo_commands_new.py:73-77 | `PlaceArrow.redo`: the arrow runs between the given nodes, laid out as a self-loop or between its ends, and the scene holds it once |
| Scene.DiagramScene.ResetNodeCounter | diagram_scene.py:356-358 | the node counter is 0 |
| Scene.DiagramScene.ResetArrowCounter | diagram_scene.py:360-362 | the arrow counter is 0 |
| Scene.DiagramScene.Clear | diagram_scene.py:364-369 | no items, both counters 0, and no arrow under construction |
| Nodes.RenameKeepsElements | widget/object_node.py:100-106 | renaming an object whose display text has an element prefix keeps the prefix before the first ':' and puts the new name after it |
| Nodes.RenameLastWins | widget/object_node.py:93-106 | renaming twice is renaming once with the second name (when the first name has no ':' or the display already has a prefix) |
| Nodes.RenameColonNameMoves | widget/object_node.py:97-106 | a name holding ':' given to an object without a prefix is split by the next rename: "A" renamed "x:B" twice shows "x:x:B" |
| Nodes.RenameRequest | widget/object_node.py:154-167 | a rename command is made only for an accepted, non-empty name that differs from the base name |
| Nodes.LabelRect | widget/object_node.py:35-54 | the Object's rectangle is centred on the origin, 20 wider and 20 taller than the text, widened to a square when narrower than tall |
| Nodes.ObjectNode.constructor | widget/object_node.py:13-33 | a new Object has base name and display text equal to the given text, size 80 by 80 at the origin, transparent pen and brush, no highlight and no move tracked |
| Nodes.ObjectNode.NodeRect | widget/node.py:39-41 | the node rectangle starts at (0, 0) with the node's width and height |
| Nodes.ObjectNode.SetPos | widget/node.py:51-76 | stores the position `itemChange` has already settled on |
| Nodes.ObjectNode.SetSize | widget/node.py:94-99 | sets the width and the height |
| Nodes.ObjectNode.SetPen | widget/node.py:101-104 | sets the pen |
| Nodes.ObjectNode.SetBrush | widget/node.py:106-109 | sets the brush |
| Nodes.ObjectNode.SetText | widget/object_node.py:82-91 | changes the display text only; the base name stays |
| Nodes.ObjectNode.SetBaseName | widget/object_node.py:93-106 | sets the base name, and the display text to the name or to the element prefix, ':' and the name |
| Nodes.ObjectNode.GetText | widget/object_node.py:112-114 | returns the base name |
| Nodes.ObjectNode.GetDisplayText | widget/object_node.py:116-118 | returns the display text |
| Nodes.ObjectNode.ToggleLabelVisibility | widget/object_node.py:178-181 | flips the manual label-hiding flag |
| Nodes.ObjectNode.SetHighlightColor | widget/node.py:152-163 | a colour gives the red 3-wide pen and a brush of that colour; no colour restores the original pen and brush |
| Nodes.ObjectNode.ClearHighlightColor | widget/node.py:165-167 | restores the original pen and brush and drops the highlight |
| Nodes.ObjectNode.ItemPositionChange | widget/node.py:51-76 | a proposed position snaps to the 150 grid; in a scene the move is blocked, keeping the current position, when another Object snaps to the same cell |
| Nodes.ObjectNode.MousePress | widget/node.py:111-118 | a press starts tracking a move from the current position |
| Nodes.ObjectNode.MouseRelease | widget/node.py:120-150 | a move is recorded iff the left button ends a tracked move whose end differs from its start, from the start to the current position; tracking is always reset |
| Nodes.PressAndRelease | widget/node.py:111-150 | a press followed by a left release without movement records no move and resets tracking |
| ProofLabels.SourceIdentityLabelsCollide | core/proof_step.py:102-130 | with the subscript table as written (its entries garbled by a wrong text encoding), the identities on Objects named "1" and "a" get the same label |
| ProofLabels.SubscriptDistinct | core/proof_step.py:104-112 | every subscript character the table gives is one character that maps back to the character it came from |
| ProofLabels.SubscriptedLength | core/proof_step.py:114-121 | a name whose characters all have subscripts keeps its length when subscripted |
| ProofLabels.SubscriptedInjective | core/proof_step.py:114-121 | two names whose subscripted forms agree are the same name |
| ProofLabels.IdentityLabelsDistinct | core/proof_step.py:114-130 | the identities on two different Objects whose names subscript fully get different labels |
| ProofLabels.CreateUnicodeSubscript | core/proof_step.py:102-130 | as intended (see Findings, core/proof_step.py:105-112, with each character's own subscript in place of the garbled table): the loop builds `1` followed by the subscripted name when every character has a subscript, else `1_x` for a one-character name and `1_{name}` otherwise |
| ProofLabels.IdentityComposeCancels | core/proof_step.py:132-196 | the identity on an Object whose one-letter name has no subscript is labelled `1_` and the name, and composing an arrow after it then cancelling identities gives the arrow back |
| ProofLabels.MapKeepsApplied | core/proof_step.py:617-650 | mapping an applied element `g(x)` or `(c)(x)` keeps the argument `x` |
| ProofLabels.MapKeepsArgument | core/proof_step.py:617-650 | mapping a non-zero element keeps what it is applied to |
| ProofLabels.ApplicationChars | core/proof_step.py:633-646 | the composed application is parenthesised and holds only characters from the element, the arrow label, the separator and parentheses |
| ProofLabels.MappedIsElement | core/proof_step.py:617-650 | the image of a valid element (no ',', ':' or braces) by a valid label is again a valid element |
| ProofLabels.MapApplied | core/proof_step.py:633-646 | mapping `g(x)` by `f` gives `(f∘g)(x)` |
| ProofLabels.MapComposed | core/proof_step.py:633-646 | mapping `(c)(x)` by `f` gives `(f∘c)(x)`: the outer parentheses of the existing composition are dropped |
| ProofLabels.MapTwice | core/proof_step.py:617-650 | mapping `x` by `f` and then by `g` gives `(g∘f)(x)` |
| ProofLabels.ZeroStaysZero | core/proof_step.py:627-630 | the image of a zero element is again zero, applied to 0 |
| ProofLabels.ZeroMarkedAll | core/proof_step.py:741-750 | every element is replaced by its zero-marked form, one for one |
| ProofLabels.ZeroMarkedElement | core/proof_step.py:741-750 | marking a valid element as zero keeps it valid |
| ProofLabels.KernelZeroParsed | core/proof_step.py:727-757 | the new label parses into the old elements each zero-marked, with the Object part after ':' unchanged, and an element gains `=0` exactly when it has the kernel pattern |
| ProofLabels.MarkedStaysKernel | core/proof_step.py:715-721 | an element with the kernel pattern keeps it after `=0` is appended |
| ProofLabels.KernelZeroStaysApplicable | core/proof_step.py:690-757 | when the step applies, its label change is not a no-op and the step still applies afterwards |
| ProofLabels.KernelChain | core/proof_step.py:384-442 | an element mapped along a kernel arrow `k_f` and then along any arrow has the pattern that Kernel at Element is Zero looks for |
| Composite.ComposedSep | core/proof_step.py:249-252 | a composition `second∘first` holds the separator right after `second`, with `second` before it and `first` after it |
| Composite.Run | core/proof_step.py:339-347 | the run `[^∘]+` is the longest prefix free of separator characters |
| Composite.RunEnd | core/proof_step.py:339-347 | an identity `1_…` matched at p ends at the first separator character after it, at least three characters on |
| Composite.SubMiddleShrinks | core/proof_step.py:339 | replacing each `∘1_X∘` by `∘` never lengthens the text, shortens it when it changes anything, and leaves it alone exactly when there is no match |
| Composite.DropFirstShrinks | core/proof_step.py:342 | removing a leading `1_X∘` never lengthens the text and changes it exactly when the text starts with one |
| Composite.DropLastShrinks | core/proof_step.py:345 | removing a trailing `∘1_X` never lengthens the text and leaves it alone exactly when there is none |
| Composite.StepShrinks | core/proof_step.py:333-351 | one round of the four substitutions never lengthens the text and shortens it when it changes it, so the loop ends |
| Composite.StepFixed | core/proof_step.py:333-351 | a round changes nothing exactly when no identity factor is left |
| Composite.FixpointFree | core/proof_step.py:333-353 | the loop's result holds no identity factor, is no longer than its input, and equals it exactly when the input had none |
| Composite.Factors | core/proof_step.py:319-324 | the factors of a composition between separators (at least one) |
| Composite.Kept | core/proof_step.py:319-324 | the non-identity factors, in order |
| Composite.KeptAppend | core/proof_step.py:319-324 | keeping the non-identity factors distributes over concatenation |
| Composite.FactorsConcat | core/proof_step.py:319-324 | the factors of `u∘x` are those of `u` followed by those of `x` |
| Composite.JoinFactors | core/proof_step.py:319-324 | joining the factors with the separator gives the text back |
| Composite.FactorsJoin | core/proof_step.py:319-324 | splitting a join of separator-free factors gives those factors back |
| Composite.StepKept | core/proof_step.py:333-351 | a round of substitutions keeps the same non-identity factors |
| Composite.FreeKeepsAll | core/proof_step.py:319-324 | in a text without identity factors every factor is kept |
| Composite.FixpointWithout | core/proof_step.py:314-356 | the loop's result is exactly the non-identity factors joined by the separator |
| Composite.CancelledFree | core/proof_step.py:314-356 | a pure identity `1_X` is returned as it is; any other label becomes its non-identity factors joined, holds no identity, is no longer, and is unchanged exactly when it held none |
| Composite.CancelledIdempotent | core/proof_step.py:314-356 | cancelling identities twice is the same as once |
| Composite.CancelIdentities | core/proof_step.py:314-356 | the `while True` loop computes the cancellation: the pure identity unchanged, anything else its non-identity factors |
| Composite.CancelFactors | core/proof_step.py:314-356 | for a join of separator-free factors that is not a pure identity, cancelling gives the join of the non-identity factors |
| Composite.CancelExample | core/proof_step.py:318 | the docstring example: `f∘g∘1_A∘h` becomes `f∘g∘h` |
| ProofSteps.ElementDisplayParsed | core/proof_step.py:493-498 | the label `x:B` Take Element writes lists exactly the element x and keeps B after the ':' |
| ProofSteps.TakeThenMap | core/proof_step.py:493-498 | after Take Element and Map Element the domain lists x and the codomain lists exactly the image of x, with its base name kept |
| ProofSteps.ChosenElement | core/proof_step.py:583-598 | the element used is the only one when there is one, the dialog's choice when there are several, and there is none exactly when there are no elements or the dialog is cancelled |
| ProofSteps.IdentityStep.constructor | core/proof_step.py:84-90 | the step starts with nothing created |
| ProofSteps.IdentityStep.Apply | core/proof_step.py:132-174 | as intended (see Findings, core/proof_step.py:105-112, for the label's subscripts): adds a copy of the Object (same name) 150 to its right, snapped to the grid, and an arrow from the original to it labelled with the identity label; the scene gains exactly those two items |
| ProofSteps.IdentityStep.Unapply | core/proof_step.py:176-196 | removes exactly the created arrow and Object from the scene and forgets them |
| ProofSteps.IdentityAndUndo | core/proof_step.py:132-196 | Identity followed by its undo leaves the scene's Objects and arrows as they were |
| ProofSteps.CompositionChains | core/proof_step.py:209-219 | when two arrows compose, the composite runs from the first arrow's source to the second's target and its label is the second label, the separator, then the first |
| ProofSteps.CompositionStep.constructor | core/proof_step.py:201-207 | the step starts with no composite and no remembered arrows |
| ProofSteps.CompositionStep.Apply | core/proof_step.py:225-255 | with two arrows selected adds exactly one new arrow, the composite; otherwise changes nothing |
| ProofSteps.CompositionStep.Unapply | core/proof_step.py:257-268 | removes exactly the composite, if any, and forgets it |
| ProofSteps.CompositionAndUndo | core/proof_step.py:225-268 | Compose Arrows followed by its undo leaves the scene's arrows as they were |
| ProofSteps.CancelIdentityStep.constructor | core/proof_step.py:298-312 | as intended (see Findings, core/proof_step.py:298-369): remembers the arrow's own label, not the displayed one, and no new label |
| ProofSteps.CancelIdentityStep.Apply | core/proof_step.py:362-365 | as intended (see Findings, core/proof_step.py:298-369, where the program cancels on the displayed label): the arrow's label becomes the cancelled label: unchanged for a pure identity, else its non-identity factors with no identity left |
| ProofSteps.CancelIdentityStep.Unapply | core/proof_step.py:367-369 | as intended (see Findings, core/proof_step.py:298-369): the arrow's label is the remembered one again |
| ProofSteps.CancelRoundTrip | core/proof_step.py:298-369 | Cancel Identities followed by its undo gives the arrow its label back |
| ProofSteps.SourceCancelRoundTrip | core/proof_step.py:298-369 | as written (the step remembers the displayed label): apply leaves the identities cancelled on the displayed label, `~ ` included on an isomorphism, and undo on an isomorphism leaves `~ ` in front of the label, so the round trip changes it |
| ProofSteps.SourceCancelTrailingOnIsomorphism | core/proof_step.py:273-365 | as written, on an isomorphism labelled `f∘1_A` the step applies and leaves the label `~ f`, where cancelling on the label gives `f` |
| ProofSteps.SourceCancelLeadingOnIsomorphism | core/proof_step.py:273-365 | as written, on an isomorphism labelled `1_A∘f` the step applies and, its first displayed factor being `~ 1_A`, leaves the label `~ 1_A∘f` with its identity, where cancelling on the label gives `f` |
| ProofSteps.TakeElementStep.constructor | core/proof_step.py:447-453 | the step starts with no element and no remembered label |
| ProofSteps.TakeElementStep.Apply | core/proof_step.py:478-500 | a cancelled dialog raises and changes nothing; an accepted name x makes the label `x:` and the base name, remembering the old label |
| ProofSteps.TakeElementStep.Unapply | core/proof_step.py:502-509 | as intended: the remembered label is back |
| ProofSteps.TakeElementStep.SourceUnapply | core/proof_step.py:502-509 | as written: it returns before its restoring line, so the label is unchanged |
| ProofSteps.TakeElementRoundTrip | core/proof_step.py:478-509 | Take Element followed by the intended undo gives the Object its label back |
| ProofSteps.SourceTakeElementRoundTrip | core/proof_step.py:478-509 | Take Element followed by the undo as written keeps the element in the label, which differs from the old label whenever that had no ':' |
| ProofSteps.MapElementStep.constructor | core/proof_step.py:514-532 | the step starts with no element, no function name and nothing remembered |
| ProofSteps.MapElementStep.Apply | core/proof_step.py:557-615 | with no source or target nothing changes; otherwise the codomain's label and base name are remembered, a missing or cancelled element raises and leaves the label, and a chosen non-empty element x makes the codomain's label the image of x, ':' and its unchanged base name |
| ProofSteps.MapElementStep.Unapply | core/proof_step.py:652-666 | the codomain's remembered label and base name are back, each where one was remembered |
| ProofSteps.MapElementRoundTrip | core/proof_step.py:557-666 | Map Element followed by its undo leaves the codomain's label and base name as they were |
| ProofSteps.MarkElements | core/proof_step.py:742-750 | the loop marks each element with the kernel pattern as zero and keeps the others, one for one |
| ProofSteps.KernelZeroStep.constructor | core/proof_step.py:671-688 | the step starts with nothing remembered |
| ProofSteps.KernelZeroStep.Apply | core/proof_step.py:727-757 | remembers the label and base name, marks the kernel elements of the label as zero and keeps the base name |
| ProofSteps.KernelZeroStep.Unapply | core/proof_step.py:759-768 | the remembered label and base name are back, each where one was remembered |
| ProofSteps.KernelZeroRoundTrip | core/proof_step.py:727-768 | Kernel at Element is Zero followed by its undo leaves the Object's label and base name as they were |
| ProofSteps.TakeKernelStep.constructor | core/proof_step.py:375-382 | the step starts with nothing created |
| ProofSteps.TakeKernelStep.Apply | core/proof_step.py:396-432 | adds the kernel Object, named by the kernel prefix and the arrow's label at the offered grid position, and the kernel arrow `k_` and the label from it into the arrow's source, styled as a kernel arrow; the scene gains exactly those two items; an arrow without a source raises and nothing changes |
| ProofSteps.TakeKernelStep.Unapply | core/proof_step.py:434-441 | removes exactly the kernel arrow and Object and forgets them |
| ProofSteps.TakeKernelAndUndo | core/proof_step.py:396-441 | Take Kernel followed by its undo leaves the scene's Objects and arrows as they were |
| ProofCommand.AffectedTabIndex | core/proof_step.py:63-78 | the index of the first tab showing the scene, and -1 exactly when the scene has no window or no tab shows it |
| ProofCommand.ProofStepCommand.constructor | core/undo_commands.py:12-16 | the command remembers the step and the index of the tab showing the step's scene |
| ProofCommand.ProofStepCommand.SwitchToTab | core/undo_commands.py:34-42 | the current tab becomes the remembered one when its index is not negative; the tabs themselves are unchanged |
| ProofCommand.ProofStepCommand.Redo | core/undo_commands.py:18-24 | as intended (see Findings, core/proof_step.py:298-369, for Cancel Identities on an isomorphism): switches tab, then the step's `apply`: its label change, its raised exception and what it remembers, per step |
| ProofCommand.ProofStepCommand.Undo | core/undo_commands.py:26-32 | as intended (see Findings, core/proof_step.py:502-509 and core/proof_step.py:298-369, for Take Element and Cancel Identities): switches tab, then the step's `unapply`: the remembered labels are back, per step |
| ProofCommand.RedoThenUndo | core/undo_commands.py:18-32 | as intended (see Findings, core/proof_step.py:502-509 and core/proof_step.py:298-369; as written the round trip fails for Take Element, and for Cancel Identities on an isomorphism): a command whose step has not run, redone and then undone, leaves every label it touched as it was and the scene's tab current |
| UndoCommands.Landing | widget/node.py:51-76 | where `setPos` leaves an Object: the requested point snapped to the 150 grid, or its old place when another Object of its scene holds that cell |
| UndoCommands.LandingOnGrid | widget/node.py:51-76 | an Object on a grid point stays on grid points whatever it is moved to |
| UndoCommands.LandingOnFreePoint | widget/node.py:51-76 | moved to a free grid point, an Object gets exactly there |
| UndoCommands.PositionNode | widget/node.py:51-76 | `setPos` goes through `itemChange` first, so the Object ends at its landing point |
| UndoCommands.ItemScene.constructor | core/undo_commands.py:102-106 | a new scene holds no Objects and no arrows |
| UndoCommands.ItemScene.AddObject | core/undo_commands.py:110 | `addItem` adds the Object once: it is held afterwards and nothing else changes |
| UndoCommands.ItemScene.RemoveObject | core/undo_commands.py:115 | `removeItem` drops exactly that Object and keeps the order of the others |
| UndoCommands.ItemScene.AddArrow | core/undo_commands.py:131 | `addItem` adds the arrow once |
| UndoCommands.ItemScene.RemoveArrow | core/undo_commands.py:144 | `removeItem` drops exactly that arrow |
| UndoCommands.ItemScene.RemoveObjectAlso | core/undo_commands.py:215-220 | removing an Object only when the scene still holds it is the same as removing it from the original list together with the earlier ones |
| UndoCommands.ItemScene.RemoveArrowAlso | core/undo_commands.py:208-213 | the same for arrows |
| UndoCommands.RenameObject.constructor | core/undo_commands.py:48-52 | the command remembers the Object and both names |
| UndoCommands.RenameObject.Redo | core/undo_commands.py:54-56 | the base name becomes the new name and the label keeps its element prefix, if any |
| UndoCommands.RenameObject.Undo | core/undo_commands.py:58-60 | the base name becomes the old name, the element prefix kept |
| UndoCommands.RenameObjectAndUndo | core/undo_commands.py:54-60 | redo then undo gives back the old base name, and the old label whenever it has a ':' or the new name has none |
| UndoCommands.RenameArrow.constructor | core/undo_commands.py:66-70 | the command remembers the arrow and both labels |
| UndoCommands.RenameArrow.Redo | core/undo_commands.py:72-74 | the label becomes the new one and its visibility follows the hiding rule when it changed |
| UndoCommands.RenameArrow.Undo | core/undo_commands.py:76-78 | the label becomes the old one and its visibility follows the hiding rule when it changed |
| UndoCommands.RenameArrowAndUndo | core/undo_commands.py:72-78 | for any arrow, self-loops included, redo then undo gives back the old label, visible exactly when the hiding rule allows |
| UndoCommands.MoveObject.constructor | core/undo_commands.py:84-88 | the command remembers the Object and both positions |
| UndoCommands.MoveObject.Redo | core/undo_commands.py:90-92 | the Object lands where `setPos` of the new position leaves it |
| UndoCommands.MoveObject.Undo | core/undo_commands.py:94-96 | the Object lands where `setPos` of the old position leaves it |
| UndoCommands.MoveObjectAndUndo | core/undo_commands.py:90-96 | an Object recorded at a free grid point is back there after redo then undo |
| UndoCommands.PlaceObject.constructor | core/undo_commands.py:102-106 | the command remembers the scene, the Object and the position |
| UndoCommands.PlaceObject.Redo | core/undo_commands.py:108-111 | the scene holds the Object, which lands where `setPos` leaves it |
| UndoCommands.PlaceObject.Undo | core/undo_commands.py:113-115 | exactly that Object leaves the scene |
| UndoCommands.PlaceObjectAndUndo | core/undo_commands.py:108-115 | placing a new Object and undoing leaves the scene's Objects as they were |
| UndoCommands.PlaceArrow.constructor | core/undo_commands.py:121-126 | the command remembers the scene, the arrow and both nodes |
| UndoCommands.PlaceArrow.Redo | core/undo_commands.py:128-140 | the arrow runs between the remembered nodes, its label visibility follows the hiding rule and the scene holds it |
| UndoCommands.PlaceArrow.Undo | core/undo_commands.py:142-153 | exactly that arrow leaves the scene |
| UndoCommands.PlaceArrowAndUndo | core/undo_commands.py:128-153 | placing a new arrow and undoing leaves the scene's arrows as they were, with the arrow still on its nodes |
| UndoCommands.FlipArrowCommand.constructor | core/undo_commands.py:301-305 | the command records the arrow's current source and target |
| UndoCommands.FlipArrowCommand.Redo | core/undo_commands.py:307-310 | the arrow runs from the recorded target to the recorded source |
| UndoCommands.FlipArrowCommand.Undo | core/undo_commands.py:312-315 | the arrow runs from the recorded source to the recorded target again |
| UndoCommands.FlipTwice | core/undo_commands.py:307-310 | redo twice has the effect of redo once |
| UndoCommands.FlipAndUndo | core/flip_arrow_command.py:10-24 | a flip command made on an arrow, redone and undone, leaves the arrow's source and target as they were |
| UndoCommands.LinksOf | core/undo_commands.py:186-202 | each arrow's link is its current source and target, arrow by arrow |
| UndoCommands.CollectRecords | core/undo_commands.py:169-183 | one record per selected item, in order: an Object with its position, an arrow with its source and target |
| UndoCommands.CollectTouching | core/undo_commands.py:189-202 | the arrows of the scene touching one deleted Object and not selected, in scene order |
| UndoCommands.CollectCascade | core/undo_commands.py:186-202 | the cascade list: for each selected Object in turn, the unselected scene arrows touching it |
| UndoCommands.TakenTogether | core/undo_commands.py:158-202 | records and cascade taken from the same scene agree: an arrow listed twice is listed with the same source and target |
| UndoCommands.RecordsCover | core/undo_commands.py:169-183 | every selected Object and arrow has a record |
| UndoCommands.DeleteItems.constructor | core/undo_commands.py:158-202 | the command holds one record per item and the cascade of the scene's arrows, which agree |
| UndoCommands.DeleteItems.Redo | core/undo_commands.py:204-222 | the scene loses exactly the recorded Objects, and the cascade and recorded arrows, keeping the order of the rest |
| UndoCommands.DeleteItems.RemoveCascade | core/undo_commands.py:208-213 | the scene loses exactly the cascade arrows |
| UndoCommands.DeleteItems.RemoveSelected | core/undo_commands.py:215-220 | the scene loses exactly the recorded items |
| UndoCommands.DeleteItems.Undo | core/undo_commands.py:234-296 | the scene holds again every recorded Object and every recorded and cascade arrow, each arrow on its recorded source and target, each Object at its recorded position where `setPos` lets it |
| UndoCommands.DeleteItems.RestoreSelected | core/undo_commands.py:239-263 | the loop over the records restores every recorded item and reconnects every recorded arrow |
| UndoCommands.DeleteItems.RestoreRecord | core/undo_commands.py:239-263 | one record restored: its item is back and, for an arrow, on its recorded nodes |
| UndoCommands.DeleteItems.RestoreObject | core/undo_commands.py:242-248 | the Object is back in the scene at its recorded position where `setPos` lets it |
| UndoCommands.DeleteItems.RestoreArrow | core/undo_commands.py:250-263 | the arrow is back in the scene, on its recorded nodes |
| UndoCommands.DeleteItems.RestoreCascade | core/undo_commands.py:265-282 | every cascade arrow is back, on its recorded nodes, and the selected arrows stay attached |
| UndoCommands.DeleteItems.RestoreLink | core/undo_commands.py:265-282 | one cascade arrow is back on its recorded nodes |
| UndoCommands.DeleteSelection | core/undo_commands.py:158-222 | after the delete no selected item remains in the scene and no remaining arrow touches a deleted Object |
| UndoCommands.DeleteHeld | core/undo_commands.py:158-222 | a deletion of items the scene holds records each selected Object with its position and each arrow with its nodes as they were, and the scene loses exactly the recorded items and the cascade |
| UndoCommands.DeleteItemsAndUndo | core/undo_commands.py:158-296 | a deletion of items the scene holds, done and undone, leaves the scene with the same Objects and arrows, every arrow on the nodes it had, and every Object where it stood, up to the snapping of `setPos` (exactly where it stood when that was a grid point) |
| Deletion.TouchingPrefix | core/undo_commands.py:189-202 | scanning one more scene arrow adds it exactly when it touches the Object and is not selected |
| Deletion.TouchingCount | core/undo_commands.py:189-202 | an arrow is listed for an Object as often as the scene holds it when it touches the Object and is not selected, else never |
| Deletion.CascadeCount | core/undo_commands.py:186-202 | an unselected arrow is listed once per selected Object it touches (times its scene count); a selected one never |
| Deletion.CascadeMembers | core/undo_commands.py:186-202 | an arrow is in the cascade exactly when it is in the scene, unselected and touches a selected Object |
| Deletion.CascadeTwice | core/undo_commands.py:186-202 | an arrow between two deleted Objects is listed twice |
| Deletion.CascadeCovers | core/undo_commands.py:186-202 | every unselected scene arrow touching a deleted Object is in the cascade |
| Deletion.CascadeWithinScene | core/undo_commands.py:186-202 | the cascade lists only scene arrows |
| Deletion.Without | core/undo_commands.py:208-220 | removing a set of items never lengthens the list |
| Deletion.WithoutMembers | core/undo_commands.py:208-220 | an item remains exactly when it was there and was not removed |
| Deletion.WithoutBoth | core/undo_commands.py:208-220 | removing two sets in turn is removing their union |
| Deletion.WithoutAppended | core/undo_commands.py:108-115 | appending a new item and removing it gives the list back |
| Deletion.WithoutAbsent | core/undo_commands.py:208-220 | removing items the list does not hold changes nothing |
| Deletion.Added | core/undo_commands.py:110 | `addItem`: the item is held afterwards, nothing else is added and nothing is lost |
| Deletion.AddedMembers | core/undo_commands.py:110 | the members after adding are the old ones and the item |
| Deletion.WithoutMembersSet | core/undo_commands.py:208-220 | the members after removal are the old ones minus the removed set |
| LegacyUndo.AddObject | undo_commands_new.py:55 | `addItem` adds the Object once |
| LegacyUndo.RemoveObject | undo_commands_new.py:60 | `removeItem` drops exactly that Object |
| LegacyUndo.AddArrow | undo_commands_new.py:77 | `addItem` adds the arrow once |
| LegacyUndo.RemoveArrow | undo_commands_new.py:89 | `removeItem` drops exactly that arrow |
| LegacyUndo.RemoveObjectAlso | undo_commands_new.py:159-163 | removing an Object only when the scene still holds it is removing it from the original list together with the earlier ones |
| LegacyUndo.RemoveArrowAlso | undo_commands_new.py:153-157 | the same for arrows |
| LegacyUndo.RenameObject.constructor | undo_commands_new.py:11-15 | the command remembers the Object and both names |
| LegacyUndo.RenameObject.Redo | undo_commands_new.py:17-19 | the Object's label becomes the new name |
| LegacyUndo.RenameObject.Undo | undo_commands_new.py:21-23 | the Object's label becomes the old name |
| LegacyUndo.RenameObjectAndUndo | undo_commands_new.py:11-23 | a rename command made from the current label, redone and undone, leaves label and base name as they were |
| LegacyUndo.RenameArrow.constructor | undo_commands_new.py:29-33 | the command remembers the arrow and both labels |
| LegacyUndo.RenameArrow.Redo | undo_commands_new.py:35-37 | the arrow's label becomes the new one |
| LegacyUndo.RenameArrow.Undo | undo_commands_new.py:39-41 | the arrow's label becomes the old one |
| LegacyUndo.RenameArrowAndUndo | undo_commands_new.py:29-41 | a rename command made from the current label, redone and undone, leaves the label as it was |
| LegacyUndo.PlaceObject.constructor | undo_commands_new.py:47-51 | the command remembers the scene, the Object and the position |
| LegacyUndo.PlaceObject.Redo | undo_commands_new.py:53-56 | the scene holds the Object, which stands exactly at the position, `setPos` on the older Object being taken as a plain move |
| LegacyUndo.PlaceObject.Undo | undo_commands_new.py:58-60 | exactly that Object leaves the scene |
| LegacyUndo.PlaceObjectAndUndo | undo_commands_new.py:53-60 | placing a new Object and undoing leaves the scene's Objects as they were |
| LegacyUndo.PlaceArrow.constructor | undo_commands_new.py:66-71 | the command remembers the scene, the arrow and both nodes |
| LegacyUndo.PlaceArrow.Redo | undo_commands_new.py:73-85 | the arrow runs between the nodes, laid out as a self-loop or between its ends, and the scene holds it |
| LegacyUndo.PlaceArrow.Undo | undo_commands_new.py:87-97 | exactly that arrow leaves the scene |
| LegacyUndo.PlaceArrowAndUndo | undo_commands_new.py:73-97 | placing a new arrow and undoing leaves the scene's arrows as they were |
| LegacyUndo.FlipArrowCommand.constructor | undo_commands_new.py:234-238 | the command records the arrow's current source and target |
| LegacyUndo.FlipArrowCommand.Redo | undo_commands_new.py:240-243 | the arrow runs from the recorded target to the recorded source |
| LegacyUndo.FlipArrowCommand.Undo | undo_commands_new.py:245-248 | the arrow runs from the recorded source to the recorded target again |
| LegacyUndo.FlipTwice | undo_commands_new.py:240-243 | redo twice has the effect of redo once |
| LegacyUndo.FlipAndUndo | flip_arrow_command.py:10-24 | a flip command made on an arrow, redone and undone, leaves its source and target as they were |
| LegacyUndo.LinksOf | undo_commands_new.py:133-147 | each arrow's link is its current source and target, arrow by arrow |
| LegacyUndo.CollectRecords | undo_commands_new.py:117-130 | one record per selected item, in order |
| LegacyUndo.CollectTouching | undo_commands_new.py:135-147 | the unselected scene arrows touching one deleted Object, in scene order |
| LegacyUndo.CollectCascade | undo_commands_new.py:133-147 | the cascade list: for each selected Object in turn, the unselected scene arrows touching it |
| LegacyUndo.TakenTogether | undo_commands_new.py:103-147 | records and cascade taken from the same scene agree on every arrow listed twice |
| LegacyUndo.RecordsCover | undo_commands_new.py:117-130 | every selected Object and arrow has a record |
| LegacyUndo.DeleteItems.constructor | undo_commands_new.py:103-147 | one record per item and the cascade of the scene's arrows, which agree |
| LegacyUndo.DeleteItems.Redo | undo_commands_new.py:149-173 | the scene loses exactly the recorded Objects and the cascade and recorded arrows |
| LegacyUndo.DeleteItems.RemoveCascade | undo_commands_new.py:153-157 | the scene loses exactly the cascade arrows |
| LegacyUndo.DeleteItems.RemoveSelected | undo_commands_new.py:159-163 | the scene loses exactly the recorded items |
| LegacyUndo.DeleteItems.Undo | undo_commands_new.py:175-228 | every recorded Object is back at its recorded position and every recorded and cascade arrow is back on its recorded source and target |
| LegacyUndo.DeleteItems.RestoreSelected | undo_commands_new.py:180-202 | the loop over the records restores every recorded item in place |
| LegacyUndo.DeleteItems.RestoreRecord | undo_commands_new.py:181-202 | one record restored |
| LegacyUndo.DeleteItems.RestoreObject | undo_commands_new.py:183-189 | the Object is back, at exactly its recorded position |
| LegacyUndo.DeleteItems.RestoreArrow | undo_commands_new.py:191-202 | the arrow is back, on its recorded nodes |
| LegacyUndo.DeleteItems.RestoreCascade | undo_commands_new.py:204-218 | every cascade arrow is back on its recorded nodes |
| LegacyUndo.DeleteItems.RestoreLink | undo_commands_new.py:205-218 | one cascade arrow is back on its recorded nodes |
| LegacyUndo.DeleteSelection | undo_commands_new.py:103-173 | after the delete no selected item remains and no remaining arrow touches a deleted Object |
| LegacyUndo.DeleteHeld | undo_commands_new.py:103-173 | a deletion of items the scene holds records each selected Object with its position and each arrow with its nodes as they were, and the scene loses exactly the recorded items and the cascade |
| LegacyUndo.DeleteItemsAndUndo | undo_commands_new.py:103-228 | a deletion of items the scene holds, done and undone, leaves the scene with the same Objects and arrows, every arrow on the nodes it had and every Object at the position it had |
| ElementSelect.Cleaned | dialog/element_select_dialog.py:31 | the stripped non-empty fields, never more than there were |
| ElementSelect.CleanedKeepsOut | dialog/element_select_dialog.py:31 | every cleaned field is non-empty, trimmed, and free of any character no field held |
| ElementSelect.ParseElements | dialog/element_select_dialog.py:23-32 | the elements of a label (before its first ':', or all of it) are each non-empty, trimmed and free of ',', ':' and braces |
| ElementSelect.JoinHasPart | dialog/element_select_dialog.py:31 | a character missing from a join is missing from every part |
| ElementSelect.JoinLacks | dialog/element_select_dialog.py:31 | a join of parts and a separator that all lack a character lacks it too |
| ElementSelect.SplitCommaSpace | dialog/element_select_dialog.py:31 | splitting a `", "`-joined list at ',' gives the first element, then each further one behind a space |
| ElementSelect.CleanedSpaced | dialog/element_select_dialog.py:31 | cleaning those fields gives the elements back |
| ElementSelect.CleanedJoined | dialog/element_select_dialog.py:31 | split-and-clean undoes the `", "` join that builds a label |
| ElementSelect.BeforeJoined | dialog/element_select_dialog.py:25-26 | the part before the first ':' of `elements:base` is the element list |
| ElementSelect.ParseJoined | dialog/element_select_dialog.py:23-32 | parsing a label `e1, e2, …:base` made of valid elements gives back exactly those elements |
| ElementSelect.ElementSelectDialog.constructor | dialog/element_select_dialog.py:12-21 | the dialog lists the parsed elements, nothing selected and not accepted |
| ElementSelect.ElementSelectDialog.SelectElement | dialog/element_select_dialog.py:82-85 | a click selects that element and accepts the dialog, the list unchanged |
| ElementSelect.ElementSelectDialog.GetSelectedElement | dialog/element_select_dialog.py:87-89 | the selected element, present only once a click has accepted the dialog |
| RenameDialogs.WithLetter | dialog/object_rename_dialog.py:96-103 | the letter followed only by primes, as many as the letter and the old name held |
| RenameDialogs.DropLast | dialog/object_rename_dialog.py:115-119 | the name without its last character; the empty name stays empty |
| RenameDialogs.LetterReplacesLetter | dialog/object_rename_dialog.py:96-103 | choosing a second letter replaces the first and keeps the primes |
| RenameDialogs.BackspaceUndoesPrime | dialog/object_rename_dialog.py:105-119 | backspace after a prime gives the name back |
| RenameDialogs.LetterEnablesPrime | dialog/object_rename_dialog.py:131-133 | after a letter or '0' is chosen the prime button is enabled |
| RenameDialogs.PrimesAloneDisablePrime | dialog/object_rename_dialog.py:131-133 | a name of primes only leaves the prime button disabled |
| RenameDialogs.ObjectRenameDialog.constructor | dialog/object_rename_dialog.py:12-22 | the dialog starts on the given name, display and buttons in agreement with it |
| RenameDialogs.ObjectRenameDialog.UpdateDisplay | dialog/object_rename_dialog.py:121-133 | shows the name (or "(empty)"), enables clear and backspace iff the name is non-empty and prime iff it has a letter or '0' |
| RenameDialogs.ObjectRenameDialog.SetLetter | dialog/object_rename_dialog.py:96-103 | the name becomes the letter and the old name's primes |
| RenameDialogs.ObjectRenameDialog.AddPrime | dialog/object_rename_dialog.py:105-108 | one prime is appended |
| RenameDialogs.ObjectRenameDialog.ClearName | dialog/object_rename_dialog.py:110-113 | the name becomes empty |
| RenameDialogs.ObjectRenameDialog.Backspace | dialog/object_rename_dialog.py:115-119 | the last character is dropped; on the empty name nothing at all changes |
| RenameDialogs.ObjectRenameDialog.GetName | dialog/object_rename_dialog.py:135-137 | the current name |
| RenameDialogs.ObjectRenameDialog.SetName | dialog/object_rename_dialog.py:143-146 | the name is replaced and the display agrees |
| RenameDialogs.ElementRenameDialog.constructor | dialog/element_rename_dialog.py:12-22 | the dialog starts on the given name |
| RenameDialogs.ElementRenameDialog.SetBaseLetter | dialog/element_rename_dialog.py:89-92 | the whole name becomes the letter, primes dropped |
| RenameDialogs.ElementRenameDialog.AddPrime | dialog/element_rename_dialog.py:94-97 | one prime is appended, so the prime count grows by one |
| RenameDialogs.ElementRenameDialog.ClearName | dialog/element_rename_dialog.py:99-102 | the name resets to "x", so it is never empty |
| RenameDialogs.ElementRenameDialog.GetElementName | dialog/element_rename_dialog.py:108-110 | the current name |
| RenameDialogs.NewElementRenameDialog | dialog/element_rename_dialog.py:12-22 | a dialog opened without a name starts on "x" |
| MainWindow.LetterOfCalligraphic | widget/main_window.py:94-99 | each of the 26 math-calligraphy capitals reads back as its own letter index |
| MainWindow.DiagramNameRoundTrip | widget/main_window.py:91-110 | the name for index i (capital i % 26, then i / 26 apostrophes) determines i |
| MainWindow.DiagramNamesDistinct | widget/main_window.py:91-110 | different indices give different diagram names |
| MainWindow.Shortest | widget/main_window.py:514 | `min`: one of the lengths and no greater than any of them |
| MainWindow.ShortArrowDoubles | widget/main_window.py:513-520 | an arrow of length at most 50 sets the spacing to min(2s, 500), which is never smaller than a spacing up to 500 |
| MainWindow.LongArrowsHalve | widget/main_window.py:522-528 | with no short arrow, all arrows at least 0.8·s set the spacing to max(s // 2, 50); otherwise it stays |
| MainWindow.SpacingStaysInRange | widget/main_window.py:513-528 | a spacing between 50 and 500 stays between 50 and 500 |
| MainWindow.Scaled | widget/main_window.py:558-563 | one scaled position per item |
| MainWindow.ScaledBack | widget/main_window.py:552-573 | scaling by a non-zero factor and then by its inverse puts every item back |
| MainWindow.DoubleThenHalve | widget/main_window.py:530-550 | regridding from s to 2s and back to s leaves the items where they were |
| MainWindow.Basename | widget/main_window.py:958 | `os.path.basename`: the part of the path after its last '/', the whole path when it has none |
| MainWindow.TitleParts | widget/main_window.py:954-965 | the title ends with the application title, names the file exactly when one is current, and starts with "* " iff modified or the file's own name starts with "* " or is "*" |
| MainWindow.StarredFileName | widget/main_window.py:954-965 | an unmodified window on a file named "* notes" still shows a leading "* " |
| MainWindow.TabWidget.constructor | widget/main_window.py:20-89 | the tab widget starts with no tab and no current index |
| MainWindow.TabWidget.SetCurrentIndex | widget/main_window.py:127 | `setCurrentIndex` takes a valid index and ignores any other |
| MainWindow.TabWidget.AddTab | widget/main_window.py:126 | `addTab` appends the tab, returns its index, and makes it current when there was none |
| MainWindow.TabWidget.RemoveTab | widget/main_window.py:167 | `removeTab` drops exactly that tab and keeps the current tab current where it still exists |
| MainWindow.Window.constructor | widget/main_window.py:20-89 | a new window has already created its first diagram: one current tab named after index 0, with no items and grid 150, and the counter at 1; no file, not modified, automatic spacing on at 150, and the plain application title |
| MainWindow.Window.CreateNewDiagram | widget/main_window.py:112-133 | a new empty tab named by the counter is appended and made current, and the counter grows by one |
| MainWindow.Window.UpdateWindowTitle | widget/main_window.py:954-965 | the title is the one the file and the modified flag call for |
| MainWindow.Window.MarkModified | widget/main_window.py:967-971 | the window is modified afterwards; the title is updated only on the first call |
| MainWindow.Window.MarkModifiedTwice | widget/main_window.py:967-971 | marking twice is marking once |
| MainWindow.Window.CloseTab | widget/main_window.py:135-179 | an invalid index changes nothing; otherwise the window is modified and the tab removed, except the last tab, which is emptied and renamed to the first diagram name; a window with tabs keeps at least one, and a window with a current tab (as every new window has) keeps one |
| MainWindow.Window.ScaleScenePositions | widget/main_window.py:552-573 | every item position of the current scene is multiplied by the factor, nothing else changes |
| MainWindow.Window.UpdateGridSpacing | widget/main_window.py:530-550 | with a current scene the spacing becomes the new one and the scene is regridded (items scaled when the factor is more than 1% from 1); without one nothing changes |
| MainWindow.MeasuredLengths | widget/main_window.py:500-510 | the lengths collected are those of items defining `get_source`, `get_target` and `get_length`, never more than there are items |
| MainWindow.NothingMeasured | widget/main_window.py:503 | for the item classes of this code base, none of which defines `get_length`, no length is collected |
| MainWindow.SourceSpacingNeverAdjusts | widget/main_window.py:503-507 | as written, an arrow of 10 leaves a spacing of 150 unchanged, where the rule gives 300 |
| MainWindow.Window.CheckAndAdjustGridSpacingAsWritten | widget/main_window.py:491-528 | the check on the scene's items: the spacing follows `NextSpacing` of the collected lengths, so with this code base's items neither the spacing nor the tabs ever change |
| MainWindow.Window.CheckAndAdjustGridSpacing | widget/main_window.py:491-528 | nothing changes when the rule is off or there is no scene or no arrow; otherwise the spacing becomes `NextSpacing`, and the scene is regridded exactly when it changed |

## Left out

- Painting (`paint`, the `_paint_*` and `_draw_*` helpers, arrow heads, label placement by angle): QPainter output with trigonometry over floats and nothing checkable to state.
- QPainterPath flattening of the rounded node outline (widget/arrow.py:1004-1024) and QFontMetrics text sizes: the boundary segments and the text width and height are inputs of the model.
- Qt signals and slots (`_signal_setup`, `_signal_cleanup`, `node_moved`, `name_changed`), QTimer debouncing, the status bar and message boxes: event-loop plumbing. The undo commands and proof steps are modelled without the signal wiring they do around adding and removing items.
- The calls to `update_parallel_arrows_in_scene` and `update_self_loops_for_node` inside the undo commands and proof steps: the re-routing they trigger is modelled on its own (Arrows.ArrowItem.UpdatePosition and the methods it calls), not re-run after each command.
- `_detect_and_highlight_cycles` in diagram_scene.py, which colours the detected cycles: the detector and the highlight rules of a single node or arrow are modelled, not the colouring pass that joins them.
- Menus, toolbars, file dialogs, zoom, session save and restore, and the `_resize_dialog` layout of the dialogs: UI shells and persistence.
- `button_text` and `get_description` of the proof steps: fixed display strings.
- CreateMappedElementCommand (core/undo_commands.py:318-359): no code in the repository creates it, and its redo and undo are the same add and remove of one Object that UndoCommands.PlaceObject models.
- ProofCommand.RedoThenUndo: states the round trip of the intended steps; as written it fails for Take Element, whose undo restores nothing, and for Cancel Identities on an isomorphism, whose undo writes back "~ " and the label (see Findings).
- LegacyUndo.DeleteItems: the item position `data['position']` recorded for an arrow and restored with `setPos` on undo (undo_commands_new.py:126, 143, 195-197, 211-213) is not recorded; the model places arrows by their end points only.
- CycleDetection.CycleDetector.DfsVisit: Python's recursion limit, which makes `_dfs_visit` raise `RecursionError` on a path of about a thousand nodes, is not modelled; the search is unbounded.
- ProofCommand.ProofStepCommand: wraps only the four steps that rewrite labels (cancel identities, take element, map element, kernel "=0"); the identity, composition and take-kernel steps are modelled with their own apply and unapply but not wrapped in the command.
- The applicability predicates (`is_applicable`) are modelled as predicates, which carry no contract of their own; the lemmas about them state their properties.
- MainWindow.Window.CheckAndAdjustGridSpacing: takes the arrow lengths as a parameter, because no arrow class in this code base defines the `get_length` the source calls; as written the program never applies the rule (see Findings and MainWindow.Window.CheckAndAdjustGridSpacingAsWritten).
- MainWindow.Window.ScaleScenePositions: scales the stored positions only; neither the arrows' `update_position` calls nor the Objects' `itemChange` snapping on `setPos` are applied to the scaled points.
- MainWindow.TabWidget.RemoveTab: the rule that picks the new current tab follows Qt's documented behaviour; Qt itself is not part of this model.
- ProofSteps.TakeKernelStep.Apply: takes the grid position the scene offers (`_find_nearest_free_grid_position`, modelled in the scene module) as a parameter.
- LegacyUndo.PlaceObject.Redo: the older Object's `setPos` is taken as a plain move, with no snapping; the root node.py, whose `itemChange` would decide any snapping, is not part of this model.
- LegacyUndo.DeleteItems.RestoreObject: states an exact return to the recorded position on the same assumption that the root Node's `itemChange` does not snap.
- LegacyUndo.DeleteItemsAndUndo: states every Object back at exactly its old position on the same assumption that the root Node's `itemChange` does not snap.
- Scene.DiagramScene.FinishArrowCreation: the `PlaceArrow` it pushes is imported from the root undo_commands.py, which is not part of this model; its redo is taken to be that of undo_commands_new.py (Scene.DiagramScene.RedoPlacement), and the undo stack itself is left out.
- Scene.DiagramScene.PlaceCurrentArrow: runs that same redo in place of the push, for the same reason.
- UndoCommands.DeleteItems: the item position `data['position']` recorded for an arrow and restored with `setPos` on undo (core/undo_commands.py:181, 255-256, 274-276) is not recorded; the model places arrows by their end points only.
- UndoCommands.DeleteItems.Undo: states which items are back and how they are connected and placed, not the order in which they re-enter the scene's item list.
- LegacyUndo.DeleteItems.Undo: likewise states membership, connections and positions, not the order of the scene's item list.
- RenameDialogs.IsAlpha: covers the ASCII, Latin-1 and Greek letters the dialogs offer, not every character Python's `str.isalpha` accepts.
- `math.sqrt` is a parameter of the routing functions, constrained by `IsSqrt`; floating-point rounding is not modelled (coordinates are exact reals).
- The composition symbol stays the three-character garbled sequence found in core/proof_step.py; the intended single `∘` character is not modelled.
- widget/diagram_view.py, diagram_view.py, widget/proof_step_overlay.py, dialog/diagram_settings_dialog.py, widget/additional_label.py, the root main_window.py and object_node.py, main.py, core/app.py, core/session_manager.py and the test and debug scripts are not part of this model.

## Findings

| source | as written | input that shows it | evidently intended | confidence | as-written member | corrected member |
|---|---|---|---|---|---|---|
| widget/arrow.py:1051 | `if intersection:` tests the returned QPointF for truth, and a point at (0, 0) is false, so a boundary hit at the scene origin is dropped | centre (40, 0), target (-100, 0), one boundary segment from (0, -40) to (0, 40): the only hit is (0, 0), and the centre is returned | test `intersection is not None`, so the origin counts as a hit | not executed | Routing.OriginHitDropped | Routing.ClosestPointOnBoundary |
| arrow.py:643 | the older arrow's `_find_closest_point_on_boundary` repeats the same `if intersection:` test, so its end points drop a boundary hit at the scene origin too | an older arrow whose node centre is (40, 0), pointing towards (-100, 0), with one boundary segment from (0, -40) to (0, 40): the only hit is (0, 0), and the end point stays at the centre (40, 0) | test `intersection is not None`, so the end point is the origin | not executed | Routing.OriginHitDropped | LegacyArrows.Arrow.UpdateNormalArrowPosition |
| core/proof_step.py:105-112 | the subscript table (stored in a wrongly decoded text encoding) gives '1' and 'a' the same two-character entry | the identity arrows on Objects named "1" and "a" are both labelled with the same text | each character maps to its own Unicode subscript, so different names give different labels | not executed | ProofLabels.SourceIdentityLabelsCollide | ProofLabels.IdentityLabelsDistinct |
| core/proof_step.py:502-509 | TakeElementProofStep.unapply returns before the line that restores the saved text, so undo changes nothing | Object "A" given element "x": apply shows "x:A", and undo leaves "x:A" | undo restores the text saved by apply | not executed | ProofSteps.SourceTakeElementRoundTrip | ProofSteps.TakeElementRoundTrip |
| widget/main_window.py:503 | the arrows are the items that define `get_length`, and no class in the code base defines it, so the list is always empty and the check returns at once | a scene gridded at 150 with one arrow 10 long: the spacing stays 150 | measure the arrows so that a short arrow doubles the spacing and long arrows halve it | not executed | MainWindow.SourceSpacingNeverAdjusts | MainWindow.Window.CheckAndAdjustGridSpacing |
| core/proof_step.py:298-369 | CancelIdentityProofStep saves `get_text()`, which prefixes an isomorphism's label with "~ "; apply cancels the identities on that displayed label and stores the result, and unapply writes the displayed label back | an isomorphism labelled "f∘1_A", to which the step applies: apply leaves "~ f" and undo leaves "~ f∘1_A"; labelled "1_A∘f", apply leaves "~ 1_A∘f", its identity still there | cancel on and save the label itself: apply gives "f" for both, and undo gives the label back | not executed | ProofSteps.SourceCancelRoundTrip | ProofSteps.CancelRoundTrip |
