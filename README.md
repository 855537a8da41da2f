# Labyrinth path tracer

A model of the path-tracing core of the labyrinth game's `MazeFrame` (main.py).

A maze of `rows` x `cols` cells, each with four wall flags, is shown as a lattice of (2*rows+1) x (2*cols+1) blocks:
- every cell sits on an odd/odd block;
- the block between two cells is a connector;
- the even/even blocks are corner posts.

Each block is classified WALL, EMPTY, PATH, START or EXIT.

The player builds a trace (`block_path`) over that lattice with the mouse:
- A left click or left drag claims every block of a straight, unobstructed run from the trace's last block (or from the start block) to the clicked block.
- A right-button drag pops the trace's last block when the pointer is on it.
- A right click on a block of the trace cuts the trace after that block.
- `draw_path` replaces the trace with the solver's route from the start cell to the exit cell.

The project has four modules:
- **Lattice** (lattice.dfy): block states, the maze as the game receives it, and `cell_next_to`. It also states, block by block, the base classification that `init_canvas` and `reset_canvas_blocks` build.
- **Tracer** (tracer.dfy): the tracer as a state machine over values. A `Trace` is the grid of block states plus the trace. Each mouse handler is a function from one `Trace` to the next (`Extend`, `Retract`, `Truncate`). `is_straight_to` is a method with its two scanning loops. `Traced` is the invariant every handler keeps: the grid is the base classification with exactly the trace's blocks painted PATH, and the trace is a duplicate-free walk of unit steps out of the start block over blocks that are EMPTY in the base.
- **Solution** (solution.dfy): the trace `draw_path` builds from the maze's cell path, and the proof that it satisfies the invariant.
- **Frame** (frame.dfy): class `MazeFrame`. Its fields are the maze, whether the canvas exists, the block grid and the trace. Its methods perform the source's loops in place. Each method's contract states exactly the grid and trace it leaves, either block by block or as the matching Tracer or Solution function. The invariant is stated as follows:
  - the handlers (`LeftClick`, `Append`, `RightClickMotion`, `RightClick`) keep it;
  - `ResetCanvasBlocks` establishes it from any grid of the lattice's shape;
  - `InitCanvas` establishes it only when the trace was empty before;
  - `DrawPath` establishes it, from any grid of the lattice's shape, only when the maze's path is a valid route;
  - the step methods (`Clear`, `OpenSide`, `OpenCell`, `Classify`, `PlaceEnds`, `Claim`, `ClaimColumn`, `ClaimRow`, `ClearAll`, `DrawRoute`) state no invariant, only their effect block by block.

Handlers take lattice coordinates. A block off the lattice is reported as `OutOfBounds`, where the source raises an `IndexError` looking it up.

The game has no solved state. Reaching a block next to the exit is only reported (the `atExit` result of `LeftClick`), and later drags are still accepted (main.py:311-312).

## Model

| member | source | states |
|---|---|---|
| Lattice.CellNextTo | main.py:53-59 | true exactly when the Manhattan distance between the two points is 1 (false for equal points and for distance 2 or more) |
| Lattice.NextToIsNeighbour | main.py:53-59 | being next to each other means being one of the four side neighbours; the relation is symmetric and irreflexive |
| Lattice.Width | main.py:103 | maze_width: 2 * cols + 1 blocks per lattice row |
| Lattice.Height | main.py:104 | maze_height: 2 * rows + 1 lattice rows |
| Lattice.Node | main.py:208 | the block of cell (x, y) is (2x+1, 2y+1) |
| Lattice.NodeInjective | main.py:137-140 | distinct cells are placed on distinct blocks (2x+1, 2y+1) |
| Lattice.NodeParity | main.py:137-140 | a cell's block has odd coordinates on both axes |
| Lattice.StartNode | main.py:137-138 | the start block: the block (2x+1, 2y+1) of the start cell |
| Lattice.ExitNode | main.py:139-140 | the exit block: the block (2x+1, 2y+1) of the exit cell |
| Lattice.CellOf | main.py:127 | the cell of an odd/odd block (x, y) is ((x - 1) / 2, (y - 1) / 2); both are non-negative there, so truncation and Dafny's division agree |
| Lattice.OpenedBy | main.py:123-135 | the cell whose block is c clears block q when q is c itself, or the block beside c on a side whose wall flag is false |
| Lattice.Opened | main.py:123-135 | a block is cleared by the scan when some cell of the maze clears it |
| Lattice.BaseState | main.py:117-140 | the base classification of one block: EXIT on the exit cell's block, START on the start cell's block, EMPTY when cleared, WALL otherwise |
| Lattice.BaseGrid | main.py:117-140 | the lattice has (2*rows+1) rows of (2*cols+1) blocks, each holding its base classification |
| Lattice.CellNodeOpen | main.py:123-126 | every cell's block is open: EXIT for the exit cell, START for the start cell, EMPTY for all others |
| Lattice.CornerIsWall | main.py:117-135 | every even/even block stays WALL |
| Lattice.OpensSide | main.py:127-135 | a cell clears its side neighbour on side d exactly when its wall flag d is false |
| Lattice.ConnectorCandidates | main.py:123-135 | a connector is cleared only by its own cell or the cell on its far side, and is otherwise WALL |
| Lattice.SharedWall | main.py:127-135 | with consistent walls, a cell's flag on side d equals its neighbour's flag on the opposite side |
| Lattice.FarSide | main.py:127-135 | with consistent walls, the far cell clears the connector only if the near cell's flag on that side is false |
| Lattice.ConnectorMatchesWall | main.py:127-135 | with consistent walls, the connector beside cell c on side d is EMPTY exactly when c's wall flag d is false, WALL otherwise |
| Lattice.EndsPlaced | main.py:137-140 | start and exit sit on (2x+1, 2y+1) of their cells, no other block is START or EXIT, and no base block is PATH |
| Lattice.Half | main.py:212 | Python's int(d / 2): half of d truncated toward zero, so d minus twice the result is 0 or 1 for d >= 0 and 0 or -1 for d < 0 |
| Tracer.Set | main.py:341 | one block overwritten; every other block keeps its state |
| Tracer.Marked | main.py:358-359 | every listed block overwritten; every other block keeps its state |
| Tracer.Traced | main.py:142-360 | the invariant: the grid is the base classification with exactly the trace's blocks PATH, and the trace is a duplicate-free walk out of the start block over base-EMPTY blocks |
| Tracer.PathIsPainted | main.py:351-355 | under the invariant a block is PATH exactly when it is on the trace, so `block_path.index` cannot fail |
| Tracer.Tail | main.py:264-267 | the block a drag continues from: the start block for an empty trace, else the trace's last block |
| Tracer.TailOccupied | main.py:264-267 | the block a drag continues from lies on the lattice and is START (empty trace) or PATH |
| Tracer.StraightRun | main.py:226-254 | the two blocks share a column or a row and every block strictly between them is an EMPTY block of the grid |
| Tracer.IsStraightTo | main.py:226-254 | returns true exactly when the blocks share a column or a row and every block strictly between them is EMPTY |
| Tracer.StraightRunBasics | main.py:226-254 | side neighbours are always straight to each other; blocks sharing neither axis never are |
| Tracer.Segment | main.py:273-306 | the blocks a drag claims number the Manhattan distance, end at the target, lie strictly between the ends except the last, and form a duplicate-free walk out of the tail |
| Tracer.ExtendAccepts | main.py:263-269 | a left click acts when the target is an EMPTY lattice block straight from the tail |
| Tracer.Extend | main.py:256-306 | rejected (target not EMPTY or not straight from the tail): nothing changes; accepted: the trace grows by the Manhattan distance, keeps its old prefix, ends at the target, the new part is a walk from the tail, exactly the new blocks turn PATH and nothing else changes |
| Tracer.AppendClaimed | main.py:283-306 | appending blocks and painting them PATH keeps the old trace as a prefix, the new blocks as the rest, and changes no other block |
| Tracer.SegmentClaimable | main.py:263-269 | every block an accepted drag claims is an EMPTY lattice block, not yet on the trace and EMPTY in the base |
| Tracer.ExtendPainted | main.py:256-306 | after an accepted drag the grid is the base with exactly the trace painted PATH |
| Tracer.ExtendClaims | main.py:256-306 | after an accepted drag the trace still claims only base-EMPTY blocks, each once |
| Tracer.ExtendKeepsTraced | main.py:256-306 | a left click keeps the invariant |
| Tracer.RetractAccepts | main.py:331-339 | a right-button drag acts when the block is PATH and is the trace's last block |
| Tracer.Retract | main.py:324-342 | acts only on the PATH block that is the trace's last; then pops exactly that block and sets only it EMPTY; otherwise nothing changes |
| Tracer.RetractKeepsTraced | main.py:324-342 | a right-button drag keeps the invariant |
| Tracer.IndexOf | main.py:355 | the index of the first occurrence: it holds the block and no earlier entry does |
| Tracer.TruncateAccepts | main.py:351-353 | a right click acts when the block is PATH and the trace is not empty |
| Tracer.Truncate | main.py:344-360 | acts only on a PATH block; then keeps the prefix up to and including that block, sets exactly the dropped blocks EMPTY and changes nothing else; otherwise nothing changes |
| Tracer.DistinctParts | main.py:356-357 | a suffix of a duplicate-free trace is duplicate-free and shares no block with the prefix |
| Tracer.ClaimedSuffix | main.py:356-359 | a dropped block is EMPTY in the base and not kept on the trace |
| Tracer.TruncatePaintedAt | main.py:344-360 | after a truncation each lattice block is PATH exactly when it stays on the trace, and holds its base state otherwise |
| Tracer.TruncatePainted | main.py:344-360 | after a truncation the grid is the base with exactly the trace painted PATH |
| Tracer.TruncateKeepsTraced | main.py:344-360 | a right click keeps the invariant |
| Tracer.Fresh | main.py:142-171 | the reset state (base classification, empty trace) satisfies the invariant |
| Tracer.Unwind | main.py:324-342 | k right-button drag steps, each on the trace's last block; the result keeps the lattice's shape |
| Tracer.UnwindClaimed | main.py:324-342 | popping as many blocks as were painted on top of a state gives that state back |
| Tracer.UnwindClaimedBy | main.py:324-342 | the same law for a state given by its grid and trace and a given count of steps |
| Tracer.RetractUndoesExtend | main.py:256-342 | after an accepted drag that claimed n blocks, n right-button drag steps back along the trace restore the grid and the trace |
| Tracer.UnwindAdd | main.py:324-342 | a + b right-button drag steps are a steps followed by b more |
| Tracer.ExtensionSplit | main.py:256-306 | when two states keep the invariant and one's trace extends the other's, the longer is the shorter with the extra blocks (duplicate-free, EMPTY lattice blocks before) painted PATH |
| Tracer.RetractUndoesExtension | main.py:256-342 | for any two states that keep the invariant where the second's trace extends the first's, as many right-button drag steps as blocks were added restore the first state exactly |
| Tracer.ExtendAll | main.py:256-312 | a series of left clicks and drags, each on the state the last one left, keeps the invariant and only grows the trace, so RetractUndoesExtension undoes the whole series |
| Tracer.TruncateRepaint | main.py:356-359 | painting the dropped blocks PATH again gives back the grid before the right click |
| Tracer.TruncateCleared | main.py:358-359 | the dropped blocks are lattice blocks left EMPTY |
| Tracer.TruncateSplit | main.py:355-359 | the trace before a right click is the kept prefix followed by the dropped blocks, and its grid is the new grid with those blocks PATH |
| Tracer.TruncateIsUnwind | main.py:324-360 | a right click has the same effect as right-button drag steps back to the clicked block |
| Solution.Route | main.py:203-221 | the route is the start cell, the maze's path, then the exit cell |
| Solution.Nodes | main.py:208 | each cell of the route is taken to its block (2x+1, 2y+1) |
| Solution.Joint | main.py:212 | the connector block between the previous and the current block, by Lattice.Half on each axis |
| Solution.DrawFrom | main.py:207-224 | two blocks (connector, cell block) per inner route cell and one final connector |
| Solution.DrawnPath | main.py:200-224 | a path of n cells gives a trace of 2n+1 blocks |
| Solution.DrawnTrace | main.py:200-224 | the state draw_path leaves: the base classification with exactly the drawn trace painted PATH, and that trace as block_path |
| Solution.DrawFromStep | main.py:207-219 | one loop turn appends the connector into the next cell, then that cell's block |
| Solution.DrawFromAt | main.py:207-224 | the drawn trace holds connectors at even indices and cell blocks at odd indices |
| Solution.JointInLattice | main.py:212 | the connector picked between two lattice blocks lies on the lattice |
| Solution.DrawnOnLattice | main.py:207-224 | when the path's cells lie in the maze, every block draw_path claims lies on the lattice |
| Solution.DrawFromOnLattice | main.py:207-224 | when the cell blocks walked lie on the lattice, so does every block DrawFrom claims |
| Solution.JointBetween | main.py:212 | between neighbouring cells, int((prev - cur) / 2) picks the block one step from each cell block |
| Solution.JointOpen | main.py:212 | the connector of a passage is EMPTY in the base, not a cell block, and next to both cell blocks |
| Solution.SideOpen | main.py:127-135 | the connector between two cells is EMPTY in the base when either cell's flag on that side is false |
| Solution.SideParity | main.py:123-135 | a block beside a cell block is not at odd/odd coordinates |
| Solution.JointsDiffer | main.py:212 | a connector determines the passage it belongs to |
| Solution.DrawnJoint | main.py:212-217 | the drawn block at index 2i is the connector of route step i, which is a passage |
| Solution.DrawnCell | main.py:208-218 | the drawn block at index 2i+1 is the block of the route's cell i+1 |
| Solution.DrawnClaims | main.py:200-224 | every drawn block is a lattice block that is EMPTY in the base |
| Solution.DrawnClaimAt | main.py:207-224 | both blocks drawn for a route step are EMPTY lattice blocks in the base |
| Solution.DistinctJoints | main.py:212 | passages out of two different cells, neither leading back into the first, have different connectors |
| Solution.JointsApart | main.py:212-217 | connectors drawn at different steps differ |
| Solution.DrawnJointParity | main.py:212-217 | a drawn connector has an even coordinate |
| Solution.JointNotCell | main.py:207-218 | a drawn connector is never a drawn cell block |
| Solution.CellsApart | main.py:208-218 | cell blocks drawn at different steps differ |
| Solution.DrawnDiffer | main.py:207-224 | blocks drawn at different indices differ |
| Solution.DrawnDistinct | main.py:200-224 | no block is drawn twice |
| Solution.IntoCell | main.py:207-218 | the connector drawn before a cell block is next to it |
| Solution.OutOfCell | main.py:207-224 | the connector drawn after a cell block is next to it |
| Solution.DrawnStep | main.py:207-224 | consecutive drawn blocks are one step apart |
| Solution.DrawnWalk | main.py:200-224 | the drawn trace is a walk out of the start block whose last block is next to the exit block |
| Solution.DrawnTraced | main.py:200-224 | for a valid route of n cells, draw_path's state satisfies the invariant with 2n+1 blocks, the last next to the exit |
| Frame.OpenedStep | main.py:149-166 | passing one more block of the scan adds exactly what that block clears |
| Frame.OpenedRow | main.py:149-150 | the end of one row of the scan is the start of the next |
| Frame.OpenedEnds | main.py:149-166 | before the scan nothing is cleared; after it, exactly the opened blocks |
| Frame.ExtendByRun | main.py:270-306 | painting the drag's blocks over the old grid is the state Extend gives, and it keeps the invariant |
| Frame.TruncateTargets | main.py:351-356 | a right click on a PATH block finds it on the trace, and every dropped block is on the lattice |
| Frame.TruncateByClear | main.py:355-360 | clearing the dropped blocks is the state Truncate gives, and it keeps the invariant |
| Frame.DrawnSoFar | main.py:207-219 | one loop turn appends the next connector and cell block, and both belong to the drawn trace |
| Frame.DrawnByRoute | main.py:200-224 | the base grid with the drawn route painted is the state DrawnTrace describes; it keeps the invariant when the route is valid |
| Frame.MazeFrame.Valid | main.py:82-360 | the frame's invariant: a well-formed maze, and with a canvas the grid and trace satisfy Tracer.Traced, without one the trace is empty |
| Frame.MazeFrame.constructor | main.py:76-89 | a new frame shows its maze, has no canvas and an empty trace |
| Frame.MazeFrame.Clear | main.py:152-165 | one more block set EMPTY, all others unchanged |
| Frame.MazeFrame.OpenSide | main.py:155-165 | a side block is cleared exactly when its wall flag is false |
| Frame.MazeFrame.OpenCell | main.py:151-165 | exactly the blocks the cell clears (itself and its open sides) become EMPTY; nothing else changes |
| Frame.MazeFrame.Classify | main.py:123-135 | the scan over an all-WALL lattice leaves exactly the opened blocks EMPTY, all others WALL |
| Frame.MazeFrame.PlaceEnds | main.py:137-140 | after placing START and EXIT the grid is the base classification |
| Frame.MazeFrame.InitCanvas | main.py:100-140 | builds exactly the base classification, leaves block_path as it is, and restores the invariant when the trace was empty |
| Frame.MazeFrame.ResetCanvasBlocks | main.py:142-171 | from any grid of the lattice's shape: the trace is emptied and the grid is the base classification, the same state init_canvas builds, whatever the state before (so resetting twice equals resetting once) |
| Frame.MazeFrame.Claim | main.py:283-285 | appends one block to block_path and sets only that block PATH |
| Frame.MazeFrame.ClaimColumn | main.py:273-289 | the column loop appends the drag's blocks in order and sets exactly them PATH |
| Frame.MazeFrame.ClaimRow | main.py:290-306 | the row loop appends the drag's blocks in order and sets exactly them PATH |
| Frame.MazeFrame.Append | main.py:270-306 | an accepted drag leaves exactly the state Extend gives and keeps the invariant |
| Frame.MazeFrame.Outcome | main.py:256-261 | the report of a handler: NoCanvas exactly without a canvas, OutOfBounds exactly for a block off the lattice, Applied exactly when the handler acted, Ignored otherwise |
| Frame.MazeFrame.LeftClick | main.py:256-312 | leaves the state Extend gives (unchanged without a canvas or off the lattice), reports NoCanvas / OutOfBounds / Ignored / Applied accordingly, and reports reaching the exit exactly when the drag was applied and ends next to the exit block |
| Frame.MazeFrame.RightClickMotion | main.py:324-342 | leaves the state Retract gives (unchanged without a canvas or off the lattice), with the matching report, and keeps the invariant |
| Frame.MazeFrame.ClearAll | main.py:358-360 | sets exactly the listed blocks EMPTY |
| Frame.MazeFrame.RightClick | main.py:344-360 | leaves the state Truncate gives (unchanged without a canvas or off the lattice), with the matching report, and keeps the invariant |
| Frame.MazeFrame.DrawRoute | main.py:205-224 | the loop and the final connector append exactly the drawn trace and set exactly its blocks PATH |
| Frame.MazeFrame.DrawPath | main.py:200-224 | leaves the state DrawnTrace describes, which satisfies the invariant when the maze's path is a valid route |

## Left out

- Rendering: every `canvas.itemconfig` and `create_rectangle` call, the colour constants, `draw_canvas`, `update_widget_size`, event binding, `App` and `MazeBuilderWindow`. These are display only and never read back.
- The pixel-to-block mapping (main.py:259-261). Handlers take lattice coordinates. A position off the lattice is reported as `OutOfBounds` with no change. Python's negative-index wrap-around, reached when a drag leaves the canvas to the left or above, is not modelled.
- The `print` calls, including "End!!!". Reaching the exit is returned as `LeftClick`'s `atExit` result instead.
- `save_grid_to_file` / `read_grid_from_file` (pickle file I/O).
- Maze generation, `Maze` / `Cell` internals and the solver. maze.py is not part of this model. The maze is an input:
  - the wall grid, the start cell and the exit cell (`WellFormed`: a rows x cols grid and two distinct cells inside it);
  - the solver's cell path, which excludes both end cells.
- `generate_labyrinth` / `size_validate`: entry-field validation of the user interface.
- Frame.MazeFrame.ResetCanvasBlocks, Frame.MazeFrame.DrawPath: require a canvas (`hasCanvas`). Before init_canvas the source fails with an AttributeError, because `reset_canvas_blocks` reads `maze_height` (main.py:144), which init_canvas first sets (main.py:104). That error path is not modelled.
- Tracer.RetractUndoesExtension: the undo law over a series of drags is stated for any state that keeps the invariant and extends the earlier trace; Tracer.ExtendAll establishes both of those for a whole series, but no single lemma names `Unwind` of `ExtendAll`, because that combination is too costly for the solver.
- Frame.MazeFrame.DrawPath: requires that the cells of `maze.path` lie inside the maze, which the solver promises; with a cell outside, the source would index out of range or wrap around. The invariant afterwards is promised only when the path is a valid route (`ValidRoute`: duplicate-free, each step through an open wall), which the solver's output is.
- Lattice.ConnectorMatchesWall: assumes `Consistent` walls (neighbouring cells agree on their shared wall), which the generator promises. Without it, the connector is EMPTY when either side's flag is false; Lattice.ConnectorCandidates and Solution.SideOpen state that case.
- The commented-out single-step branch (main.py:314-322) is not behaviour. Neither is the `else` at main.py:307-309, which an accepted drag cannot reach.
- Frame.MazeFrame.DrawRoute claims the connector of each step before that step's cell block. The source sets the two states in the other order before appending both. The two blocks differ, so the end state is the same.
