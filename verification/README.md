# Grid pathfinding core — a Dafny model

This project models the pathfinding core of a small Rust/egui demo: a
4-connected A* search over a bounded integer grid with a blocked-cell map
(`NavMesh`), its multi-waypoint variant, the construction of the blocked-cell
map from rectangles, circles and a fixed "A*" stage, the per-agent request
lifecycle (pending search handles, active paths, one cell of movement per
tick) and the selection map that decides which agents a click addresses.

Modules, one per part of the source:

- `Position` (`position.dfy`): `Pos2`, its tuple key, its neighbours and the derived ordering.
- `Navigation` (`navmesh.dfy`): the `NavMesh` value, bounds, blocked cells, the heuristic.
- `Search` (`search.dfy`): `a_star` as a recursive function over a search state of heap
  entries, back-pointers and `g` scores, with a termination measure and soundness proofs.
- `Waypoints` (`waypoints.dfy`): `waypointed_a_star`, its leg-joining rule and its failure cases.
- `Occupancy` (`occupancy.dfy`): rectangle and circle fills (loop methods) and the stage preset.
- `Selection` (`selection.dfy`): the id → selected map and the hierarchy click events.
- `Agents` (`agents.dfy`): `path_map`, `current_paths`, the queued waypoints, `navigate`,
  the poll and `move_entities`.
- `Wrappers` (`wrappers.dfy`): `Option`.

Modelling choices:

- Coordinates and scores are unbounded integers; grid-fill inputs are exact reals.
- The binary heap of `Reverse((f, cell))` is a sequence from which the least
  `(f, x, y)` entry is popped. Entries equal under that order are identical, so
  the pop is deterministic even though the source's heap layout is not modelled.
- The `f_score` map is not kept: it is written but only read back to form the
  entry just pushed, whose `f` the model computes directly.
- A search handle is `Empty | Pending(outcome) | Ready(outcome)`. `Pending`
  carries the outcome the search on the mesh copy taken at submission will
  deliver; `Resolve` is the worker finishing. Threads, the promise library and
  the thread counter are abstracted to this.
- The entity registry is a map from id to an entity with an optional
  `Transform2` position. `get_entity_from_id` is not part of this model;
  `Navigate` requires every selected id to be registered.
- Hash-map iteration order in `get_selected`, `navigate`, the poll and
  `move_entities` is irrelevant because each agent touches only its own entries;
  the model uses sets and map comprehensions.
- Each step costs 10 and the heuristic is the unscaled Manhattan distance, so
  it never overestimates (`Navigation.HeuristicAdmissible`).
- An empty waypoint list yields nothing: the loop does not run and the empty
  collection gives `None`.
- A waypointed search skips an unreachable leg and starts the next leg at
  the waypoint it failed to reach (src/pathfinding.rs:178-221). When legs
  before and after it have routes, the result joins them across the gap, so
  it need not be a walk (`Waypoints.SkippedLegBreaksWalk`). Clicks are not
  checked against the grid bounds, so a waypoint just outside the grid
  suffices. On a free 10 by 10 grid, the search from (5, 5) through (5, 5),
  (-1, 0) and (0, 0) yields `[(5, 5), (0, 0)]` (`Waypoints.SkippedLegJumpsExample`).
  `Waypoints.WaypointedSound` therefore requires every leg to have a route.

## Model

| member | source | states |
|---|---|---|
| `Position.Neighbors` | src/ecs/pos2.rs:39-58 | four distinct neighbours, exactly the cells at Manhattan distance one |
| `Position.NeighborsSymmetric` | src/ecs/pos2.rs:39-58 | `q` is a neighbour of `p` iff `p` is a neighbour of `q` |
| `Position.NeighborsOrthogonal` | src/ecs/pos2.rs:39-58 | no neighbour is diagonal; each is one unit away |
| `Position.ToTupleInjective` | src/ecs/pos2.rs:35-37 | two cells have the same tuple key iff they are equal |
| `Position.LeIsTotalOrder` | src/ecs/pos2.rs:1-3 | the derived lexicographic order is reflexive, antisymmetric, transitive and total |
| `Navigation.SetGridBoundaries` | src/pathfinding.rs:44-47 | replaces the bounds and keeps the blocked map |
| `Navigation.SetSpaceLut` | src/pathfinding.rs:53-55 | a cell is blocked afterwards iff its key is in the new map; bounds kept |
| `Navigation.InBoundsBetween` | src/pathfinding.rs:49-51 | a cell is in bounds iff the bounds are ordered and it lies on a shortest orthogonal route from `min` to `max` |
| `Navigation.Box` | src/pathfinding.rs:49-51 | the in-bounds cells form a finite set: membership is exactly `is_in_bounds` |
| `Navigation.Heuristic` | src/pathfinding.rs:57-59 | non-negative, and zero exactly between a cell and itself |
| `Navigation.HeuristicAdmissible` | src/pathfinding.rs:57-59 | never more than the step count of any orthogonal walk, hence at most a tenth of its cost |
| `Search.NeighborMovementCost` | src/pathfinding.rs:134-136 | every generated move costs 10; the cost-14 branch is unreachable |
| `Search.MinIndex` | src/pathfinding.rs:11-24 | the popped entry is least in `(f, x, y)` order among all queued entries |
| `Search.EntryLeAntisymmetric` | src/pathfinding.rs:109 | two entries tied in the heap order are the same entry, so the pop is deterministic |
| `Search.Relax` | src/pathfinding.rs:138-149 | a relaxation never worsens or forgets a score, and changes nothing unless a score drops |
| `Search.RelaxPreservesInv` | src/pathfinding.rs:138-149 | a relaxation keeps the back-pointer invariant: parents adjacent, children in bounds and unblocked, parent score strictly smaller |
| `Search.ExpandFrom` | src/pathfinding.rs:128-150 | the neighbour loop never worsens a score, and leaves the state unchanged when no score drops |
| `Search.ExpandPreservesInv` | src/pathfinding.rs:128-150 | the neighbour loop keeps the search invariant |
| `Search.SearchProgress` | src/pathfinding.rs:141-148 | a neighbour loop that changed scores either scored a new in-bounds cell or strictly lowered a score |
| `Search.Run` | src/pathfinding.rs:118-152 | the main loop terminates on finite bounds; when it stops at the goal, the goal is scored and the invariant holds |
| `Search.WalkBack` | src/pathfinding.rs:120-123 | the back-pointer walk terminates and starts at the goal |
| `Search.Reverse` | src/pathfinding.rs:124 | the reversed sequence has the same length, with element `i` taken from position `n-1-i` |
| `Search.WalkBackSound` | src/pathfinding.rs:119-125 | the reversed walk from any scored cell starts at `start`, ends at that cell, takes unit steps and visits only in-bounds unblocked cells after the first |
| `Search.AStar` | src/pathfinding.rs:105-156 | a blocked start or goal gives no path; any path found starts at `start`, ends at `end`, takes orthogonal unit steps, stays in bounds and off blocked cells |
| `Search.AStarDistinct` | src/pathfinding.rs:105-156 | a route `a_star` returns visits no cell twice |
| `Search.WalkBackDistinct` | src/pathfinding.rs:119-123 | scores strictly fall along the back-pointer walk, so it never revisits a cell |
| `Search.Initial` | src/pathfinding.rs:114-116 | the state before the first pop (only `start`, score 0, queued with `f` 0) satisfies the search invariant on every mesh |
| `Search.MovementCost` | src/pathfinding.rs:134-136 | a move costs 10 or 14, and 10 whenever one coordinate is unchanged |
| `Search.OutOfBoundsGoalUnreachable` | src/pathfinding.rs:128-133 | a goal outside the bounds is unreachable from any other cell |
| `Search.ExpandSkips` | src/pathfinding.rs:128-133 | a neighbour loop over out-of-bounds or blocked cells changes nothing |
| `Search.ExpandOnly` | src/pathfinding.rs:128-150 | when only one neighbour is open, the neighbour loop is that one relaxation |
| `Search.AStarOnlyNeighbour` | src/pathfinding.rs:105-152 | from a cell whose only open neighbour is the goal, the route is that single step |
| `Search.AStarToSelf` | src/pathfinding.rs:114-125 | searching from an unblocked cell to itself gives that cell alone |
| `Search.EnclosedGoalUnreachable` | src/pathfinding.rs:128-133 | a goal not next to the start whose neighbours are all blocked or out of bounds gives no path |
| `Waypoints.WalkToRoot` | src/pathfinding.rs:180-185 | the leg's walk is empty exactly at the root, starts at the goal, and holds only cells with a back-pointer |
| `Waypoints.Join` | src/pathfinding.rs:189-193 | keeps the collected prefix; appends the whole leg to an empty collection and otherwise all but its first cell |
| `Waypoints.Legs` | src/pathfinding.rs:161-228 | the leg loop only appends: a result keeps everything collected so far as its prefix |
| `Waypoints.WalkToRootThenStart` | src/pathfinding.rs:180-187 | the leg's walk plus its start equals the single-target walk |
| `Waypoints.LegPath` | src/pathfinding.rs:169-195 | a leg between unblocked cells computes exactly `a_star`'s result, and is sound |
| `Waypoints.LegsNone` | src/pathfinding.rs:161-228 | the leg loop gives nothing iff a leg endpoint is blocked, or nothing was collected and no remaining leg has a route |
| `Waypoints.WaypointedAStar` | src/pathfinding.rs:157-229 | nothing iff the waypoint list is empty, some leg endpoint is blocked, or no leg has a route |
| `Waypoints.LegsFound` | src/pathfinding.rs:189-193 | a leg with a route is joined onto the collection before the loop moves on |
| `Waypoints.LegsChain` | src/pathfinding.rs:178-221 | when every remaining leg has a route, the loop appends each leg without its first cell |
| `Waypoints.WaypointedConcatenation` | src/pathfinding.rs:157-229 | with every leg reachable, the result is the first leg's route followed by each later leg's route minus its first cell |
| `Waypoints.JoinSound` | src/pathfinding.rs:189-193 | two sound routes meeting at a cell join, junction once, into a sound route |
| `Waypoints.ChainSound` | src/pathfinding.rs:178-221 | the joined later legs form a sound route from the first waypoint to the last |
| `Waypoints.WaypointedSound` | src/pathfinding.rs:157-229 | with every leg reachable, the result is a sound route from `start` to the last waypoint |
| `Waypoints.LegsSkipped` | src/pathfinding.rs:178-221 | an unreachable leg adds nothing, whatever was collected, and the next leg starts at the unreached waypoint |
| `Waypoints.SkippedMiddleLeg` | src/pathfinding.rs:157-229 | with legs one and three routed and leg two not, the result is leg one followed by leg three minus its first cell |
| `Waypoints.GapAtJunction` | src/pathfinding.rs:189-193 | joining at a cell more than two steps from the end of the collection leaves a gap |
| `Waypoints.SkippedLegBreaksWalk` | src/pathfinding.rs:178-221 | a skipped middle leg whose waypoint is far from the one before leaves a result that is not a walk |
| `Waypoints.SkippedLegJumps` | src/pathfinding.rs:157-229 | a waypoint just outside the grid next to the following one makes the route jump from the previous waypoint |
| `Waypoints.SkippedLegJumpsExample` | src/pathfinding.rs:157-229 | on a free 10 by 10 grid, from (5, 5) through (5, 5), (-1, 0), (0, 0) the result is `[(5, 5), (0, 0)]` |
| `Waypoints.WaypointOnce` | src/pathfinding.rs:189-193 | with both legs routed, the route through `[a, b]` contains `a` exactly once |
| `Waypoints.WaypointedSkipsUnreachableLeg` | src/pathfinding.rs:178-221 | an unreachable first leg adds nothing: the result is the search from the unreached waypoint over the rest |
| `Occupancy.FillRectangle` | src/panel/demo_panel.rs:307-324 | blocks exactly the cells with `floor(x) <= ix <= floor(x+width)` and `floor(y) <= iy <= floor(y+height)`; no entry removed, others unchanged |
| `Occupancy.RectangleZeroHeightRow` | src/panel/demo_panel.rs:319-320 | with zero height the fill still covers the full row `floor(y)` |
| `Occupancy.FillCircle` | src/panel/demo_panel.rs:326-339 | blocks exactly the cells of the `[floor(c-r), ceil(c+r)]` box that pass the corner test; no entry removed |
| `Occupancy.IsInsideCircle` | src/panel/demo_panel.rs:341-354 | holds iff some corner `(x + i, y + j)` with `i, j` in `{0, 1}` lies in the closed disc |
| `Occupancy.CircleMonotone` | src/panel/demo_panel.rs:341-354 | a larger radius never unmarks a cell |
| `Occupancy.CircleBoxCoversStrictCorners` | src/panel/demo_panel.rs:326-339 | every cell with a corner strictly inside the circle is in the box and passes the test, so it is filled |
| `Occupancy.CircleBoxMissesTangentCorner` | src/panel/demo_panel.rs:327-335 | a cell whose only corner in the disc lies on the rim can fall outside the scanned box |
| `Occupancy.SwapToAStarStage` | src/panel/demo_panel.rs:841-847 | the blocked set becomes `{39..40}x{37..49} + {30..49}x{40} + {30..49}x{49}` and the mesh gets an equal copy |
| `Selection.SetSelect` | src/panel/scene_hierarchy_panel.rs:323-327 | only the given id's flag changes; an unknown id changes nothing |
| `Selection.Select` | src/panel/scene_hierarchy_panel.rs:329-331 | the id becomes selected if known; other flags unchanged |
| `Selection.Unselect` | src/panel/scene_hierarchy_panel.rs:333-335 | the id becomes unselected; other flags unchanged |
| `Selection.ToggleSelect` | src/panel/scene_hierarchy_panel.rs:317-321 | only the given id's flag flips; an unknown id changes nothing |
| `Selection.SelectAll` | src/panel/scene_hierarchy_panel.rs:337-341 | every known id selected, no id added |
| `Selection.UnselectAll` | src/panel/scene_hierarchy_panel.rs:343-347 | every known id unselected, no id added |
| `Selection.GetSelected` | src/panel/scene_hierarchy_panel.rs:349-357 | the selection holds only known ids, and a known id is in it iff its flag is set |
| `Selection.IsSelected` | src/panel/scene_hierarchy_panel.rs:359-362 | membership in the selected list holds iff the id is known and flagged |
| `Selection.QuerySelect` | src/panel/scene_hierarchy_panel.rs:364-366 | for a known id, the stored flag agrees with `is_selected` |
| `Selection.ToggleSelectInvolution` | src/panel/scene_hierarchy_panel.rs:317-321 | toggling twice restores the map |
| `Selection.SelectAllUnselectAll` | src/panel/scene_hierarchy_panel.rs:337-357 | nothing selected after unselect-all; every known id selected after select-all |
| `Selection.Classify` | src/panel/scene_hierarchy_panel.rs:15-39 | ctrl+click is Add, else double click ToggleCollapse, else click Change, else hover Hovered, else none |
| `Selection.HandleEvent` | src/panel/scene_hierarchy_panel.rs:147-164 | Add selects; Change on a selected id leaves nothing selected and on an unselected id leaves only it; ToggleCollapse flips the open flag; hover changes nothing |
| `Selection.AddKeepsOthers` | src/panel/scene_hierarchy_panel.rs:148-150 | an Add adds the id to the selection without clearing the rest |
| `Agents.SubmitAStar` | src/pathfinding.rs:61-76 | a new request is pending; its outcome is none on a blocked endpoint, and any route it carries is sound |
| `Agents.SubmitWaypointed` | src/pathfinding.rs:78-103 | a new waypointed request is pending; its outcome is none exactly in the waypointed search's failure cases |
| `Agents.PositionOf` | src/panel/demo_panel.rs:781-790 | the agent's transform position, or the default cell (100, 100) without one |
| `Agents.Resolve` | src/pathfinding.rs:61-76 | a finishing worker turns that agent's pending handle into a ready one with the same outcome; nothing else changes |
| `Agents.QueuePoint` | src/panel/demo_panel.rs:703-710 | a middle click appends the cell to the queued waypoints |
| `Agents.Navigate` | src/panel/demo_panel.rs:766-834 | fresh selected agents get one waypointed request over the queued points plus the click; empty slots get a single-target request; live handles and unselected agents are untouched; the queue ends empty |
| `Agents.Poll` | src/panel/demo_panel.rs:729-749 | for selected agents with a ready handle: a route becomes the active path, a failure clears it, the handle is dropped; every other entry is unchanged |
| `Agents.MoveEntities` | src/panel/demo_panel.rs:546-562 | each agent that exists, has a transform and a non-empty path moves to the head, and the path loses exactly it; all else untouched, no entity created or removed |
| `Agents.SelectEach` | src/panel/demo_panel.rs:720-722 | afterwards an id is selected iff it was or it is among the hits |
| `Agents.PrimaryClick` | src/panel/demo_panel.rs:712-727 | a click on entities selects them, replacing the selection unless ctrl is held; a click on an empty cell navigates the selected agents |
| `Agents.NoSecondRequestWhilePending` | src/panel/demo_panel.rs:776-802 | a pending agent's handle survives a new click unchanged: no second search |
| `Agents.RequestLifecycle` | src/panel/demo_panel.rs:816-829 | click, finish, poll installs exactly the waypointed search over the queue plus the click on the mesh of that moment, or no path on failure |
| `Agents.PathDrains` | src/panel/demo_panel.rs:546-562 | after `n` ticks a moving agent's path lost exactly its first `n` cells and the agent stands on the last of them |
| `Agents.OrphanPathIsInert` | src/panel/demo_panel.rs:548-550 | a path of an agent no longer registered is neither consumed nor recreates the agent |

## Left out

- Search.AStar: shortest-path optimality and completeness (a path is found whenever one exists) are not stated; only soundness, distinct cells, the blocked-endpoint rule and termination are.
- 64-bit arithmetic: `i64` coordinates and scores are unbounded here; the `i64::MAX` score of an unscored cell is kept as the comparison bound, but overflow of `x + 1` or of `g + cost` is not modelled.
- The `g_score.get(&current).unwrap_or(&i64::MAX)` fallback for the expanded cell: every popped cell is scored, so the model reads its score directly.
- Threads, `Promise::spawn_thread`/`spawn_local` and the thread counter: replaced by the `Pending`/`Ready` handle and the `Resolve` step.
- The `PathPromise` Debug, PartialEq and Clone impls: only their effect, an `Empty` slot, is modelled.
- Random obstacle generation: driven by a random number generator.
- Pointer presence: clicks, queued points and the poll run only in frames where the pointer is over the plot (src/panel/demo_panel.rs:696); the model takes each event as given.
- The frame timer: each expiry is one call of `MoveEntities`.
- IEEE floating point: floors, ceilings and squared distances are exact reals; the `f32`/`f64` to `i64` casts of `Pos2::from_min`/`from_max` and of the clicked cursor position are not modelled (the click arrives as a cell).
- Entities with more than one `Transform2` component (each would consume one path cell per tick).
- `set_env_settings`, which calls the stage swap on a change to the "A*" stage, and the `DemoPanel.start` field, which only records the last click.
- The hierarchy `Tree` widget, which registers ids in the selection and open maps and deletes nodes.
- Rendering and layout: markers, drawing, plot set-up, panels, settings and the application shell.
