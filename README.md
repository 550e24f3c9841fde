# Grid path-finding sketch: the search engine

A p5.js sketch draws a grid of cells with a start, an end and a few walls. It
lets the user run one of three searches from the start:

- a breadth-first search, over a queue;
- a depth-first search, over a stack;
- an "A*" search, over a JavaScript `Set` scanned for the lowest score.

Each animation frame runs one step of the active search. Once the end has been
taken from the frontier, the path is shown one cell per frame by following
`parent` links back from the end.

This project models that engine in Dafny:

- the grid and its cells, as `resetToEmpty` lays them out;
- the three click handlers that launch a search;
- `getNeighbours`;
- the three step functions, with `getLowestScoreCell` and `testSetContains`;
- `showPath`.

The sketch's global variables are the fields of one class, `Sketch.Engine`.
Each cell is named by its coordinates (`Geometry.Coord`). Each field of the
cell objects becomes one field of the engine:

- a boolean field is the set of cells where it is true;
- `parent` and `parentCell` are maps, defined where the link has been set;
- `score` maps every cell to its score.

The queue and the stack are sequences. The A* `Set` is an insertion-ordered
sequence without duplicates, and `JsCollections` gives its `add` and `delete`.

Each step method's postcondition states the whole new state as a function of
the old one:

- what leaves the frontier and what enters it;
- which cells become visited;
- which `parent` links and scores are written.

Every operation keeps one invariant, `Engine.Valid`. Part of it is a ghost time
stamp for each visit. The invariant has four properties:

- a cell's parent is an adjacent grid cell that was visited, and visited earlier
  than the cell itself if the cell was visited too;
- every visited cell, and every cell in a running search's frontier, is the
  start or has a parent;
- once `done` is set, the end has been visited;
- so the walk `showPath` makes always ends, follows adjacent cells and never
  revisits a cell; once `done` is set, the walk from the end reaches the start.

The code's quirks are modelled as written:

- `testSetContains` reads `length`, which a `Set` does not have, so it always
  answers false and A* always overwrites the parent.
- The `if` before the A* neighbour update has no braces, so only the parent
  write is guarded; the score write and the `add` run for every neighbour.
- The constructor writes `parentCell`, but the searches and `showPath` use
  `parent`, which stays undefined on a fresh cell.
- A step that takes the end from the frontier stops the run, but still expands
  the end in that same step.
- A step on an empty frontier (or, for A*, with no score below 10000000) dies on
  the missing `current` before changing anything.

Some behaviours of the code that are easy to assume otherwise:

- A* keeps its open cells in a JavaScript `Set` and finds the lowest score by a
  linear scan; there is no score-ordered tree.
- The A* score of a neighbour is `heuristic(neighbour) + current.score / 1.03`.
- A step on an empty frontier is not a quiet no-op: it throws. The model
  returns `FrontierEmpty` and changes nothing.
- A reset clears only the run flags, so the queue, the stack and the set are
  left as they were.
- There are three searches: breadth-first, depth-first and A*. There is no
  separate best-first search.

## Model

| member | source | states |
|---|---|---|
| Sketch.Middle | sketch.js:32 | `Math.round(nbRows / 2)` is half the row count, rounded up on a half |
| Sketch.LayoutCells | sketch.js:32-36 | the start and end cells are on the grid and are different cells, and the start is not a wall |
| Sketch.SketchGridLayout | sketch.js:4-5 | on the sketch's 40 by 40 grid the layout fits, the start is (7, 20), the end is (35, 20), and neither is a wall |
| Sketch.TestSetContains | sketch.js:194-201 | the answer is true exactly when the collection is an array that holds the cell; for a `Set` it is always false |
| Sketch.ElemsMembers | sketch.js:155-160 | the cells a breadth-first step marks visited are exactly the neighbours it discovers |
| Sketch.LinksMembers | sketch.js:175-178 | the parent links a step writes are exactly one link per neighbour, each pointing at `current` |
| Sketch.RescoredMembers | sketch.js:221-226 | the scores an A* step writes are exactly one per neighbour, each computed from that neighbour and `current`'s score |
| Sketch.Engine.constructor | sketch.js:54-58 | setup lays the grid out as resetToEmpty does, leaves every frontier empty and every run flag false, and the engine is valid |
| Sketch.Engine.SetAsStart | sketch.js:257-259 | the cell gains the start flag; nothing else changes |
| Sketch.Engine.SetAsEnd | sketch.js:261-263 | the cell gains the end flag; nothing else changes |
| Sketch.Engine.SetAsWall | sketch.js:265-267 | the cell gains the wall flag; nothing else changes |
| Sketch.Engine.ResetToEmpty | sketch.js:22-52 | every cell of the grid is fresh except for the start, the end and the walls; the path cursor is on the end; all run flags are cleared; the frontiers are outside its frame; the engine is valid |
| Sketch.Engine.LaidOutIsValid | sketch.js:22-52 | a grid laid out by resetToEmpty, with no visits and no run flag set, satisfies the engine invariant |
| Sketch.Engine.LayOut | sketch.js:24-46 | each cell ends up with the start flag exactly at the start cell, the end flag exactly at the end cell, the wall flag exactly on the wall layout, and no other field set |
| Sketch.Engine.CreateCells | sketch.js:24-29 | after the nested loops every cell of the grid is as the cell constructor builds it |
| Sketch.Engine.NewCell | sketch.js:229-239 | the new cell has every flag false, no `parentCell`, no `parent` and score 0; every other cell keeps its fields |
| Sketch.Engine.LayWalls | sketch.js:40-46 | after the two loops the walls are exactly the old walls plus column 25 from row 2 to row `rows - 3`, and rows 2 and `rows - 3` from column 15 to column 24 |
| Sketch.Engine.LaunchBfs | sketch.js:61-66 | the queue is exactly `[start]`, breadth-first search is launched, and the engine stays valid |
| Sketch.Engine.LaunchDfs | sketch.js:68-73 | the stack is exactly `[start]`, depth-first search is launched, and the engine stays valid |
| Sketch.Engine.LaunchAstar | sketch.js:75-80 | the set is exactly `{start}`, A* is launched, and the engine stays valid |
| Sketch.Engine.GetNeighbours | sketch.js:126-143 | a cell is returned exactly when it is adjacent, on the grid, not a wall and not visited; there are at most four, listed in the order up, down, left, right |
| Sketch.Engine.NeighboursFramed | sketch.js:154-155 | marking `current` visited before asking for its neighbours does not change them |
| Sketch.Engine.BfsStep | sketch.js:145-162 | an empty queue gives `FrontierEmpty` and changes nothing; otherwise the head leaves the queue and its open neighbours are appended in order; the head and those neighbours become visited, and each neighbour gets the head as parent; the run stops and `done` is set exactly when the head is the end; the invariant and a well-formed queue are kept |
| Sketch.Engine.BfsTake | sketch.js:149-161 | the same as `BfsStep`, on a non-empty queue |
| Sketch.Engine.BfsRun | sketch.js:149-161 | the same as `BfsTake`, on the search invariant and the queue alone |
| Sketch.Engine.BfsShift | sketch.js:149 | `shift` returns the head and keeps the rest in order; the head is on the grid and appears nowhere else in the queue; the new head is visited |
| Sketch.Engine.BfsHandle | sketch.js:150-161 | the end test sets the run flag and `done`, then the expansion appends, visits and links exactly the open neighbours |
| Sketch.Engine.BfsExpand | sketch.js:154-161 | `current` and its open neighbours become visited, the neighbours are appended and linked to `current`, and the queue stays free of duplicates |
| Sketch.Engine.DiscoverAll | sketch.js:155-161 | the `forEach` appends, visits and links to `current` exactly the cells it is given, in order |
| Sketch.Engine.BfsKeepsValid | sketch.js:145-162 | a breadth-first step keeps the engine invariant: the head it takes was the start or had a parent, each cell it marks visited or appends gets `current` as parent, and `done` is set only when the end was just visited |
| Sketch.Engine.DfsStep | sketch.js:164-180 | an empty stack gives `FrontierEmpty` and changes nothing; otherwise the top is popped and becomes visited; if it was not visited before, its open neighbours are pushed in order and get it as parent, and if it was visited, nothing is pushed or linked; the run stops and `done` is set exactly when the top is the end |
| Sketch.Engine.DfsTake | sketch.js:168-179 | the same as `DfsStep`, on a non-empty stack |
| Sketch.Engine.DfsRun | sketch.js:168-179 | the same as `DfsTake`, on the search invariant and the stack alone |
| Sketch.Engine.DfsPop | sketch.js:168 | `pop` returns the last cell and keeps the rest; the popped cell is on the grid |
| Sketch.Engine.DfsHandle | sketch.js:169-179 | the end test, then the expansion only when the popped cell was not visited |
| Sketch.Engine.DfsExpand | sketch.js:173-179 | `current` becomes visited, and its open neighbours are pushed and linked to `current` |
| Sketch.Engine.PushAll | sketch.js:175-178 | the `forEach` pushes, in order, and links to `current` exactly the cells it is given |
| Sketch.Engine.DfsKeepsValid | sketch.js:164-180 | a depth-first step keeps the engine invariant: the top it pops was the start or had a parent, each cell it pushes gets `current` as parent, and `done` is set only when the end was just visited |
| Sketch.Engine.FirstLowestUnique | sketch.js:182-192 | at most one position of the set is the first with the lowest score below the ceiling |
| Sketch.Engine.GetLowestScoreCell | sketch.js:182-192 | null exactly when no member scores below 10000000; otherwise the first member in insertion order among those with the lowest score, and no other member qualifies |
| Sketch.Engine.AstarStep | sketch.js:209-227 | an empty set gives `FrontierEmpty`, and a set with no score below the ceiling gives `NoCandidate`; both change nothing; otherwise the first lowest-scored member is chosen and deleted, and its open neighbours are added in order; it becomes visited; each neighbour gets it as parent and a score from its score; the run stops exactly at the end |
| Sketch.Engine.AstarTake | sketch.js:213-226 | once a member of the set is chosen, the step does exactly what `AstarStep` states and keeps the invariant |
| Sketch.Engine.AstarRun | sketch.js:214-226 | the same as `AstarTake`, on the scores, the search invariant and the set alone |
| Sketch.Engine.AstarStop | sketch.js:214-218 | the end test sets the run flag and `done`; `delete` removes `current` and keeps the set free of duplicates |
| Sketch.Engine.AstarExpand | sketch.js:219-226 | `current` becomes visited, and each of its open neighbours is linked, rescored and added to the set |
| Sketch.Engine.RelaxAll | sketch.js:221-226 | the `forEach` gives every neighbour `current` as parent and a score from `current`'s, and adds it to the set, in order |
| Sketch.Engine.Relax | sketch.js:222-225 | for one neighbour: the parent is overwritten because the `Set` membership test fails; the score is always written and the cell always added |
| Sketch.Engine.Visit | sketch.js:154 | `current.visited = true` adds exactly that cell to the visited cells and keeps the search invariant |
| Sketch.Engine.SetParent | sketch.js:176 | `neighbour.parent = current` sets exactly that link and keeps the search invariant |
| Sketch.Engine.Discover | sketch.js:157-158 | marks the neighbour visited and links it to `current`, keeping the search invariant |
| Sketch.Engine.PathFrom | sketch.js:122-123 | the walk `showPath` makes from a cell starts at that cell |
| Sketch.Engine.PathIsParentChain | sketch.js:122-123 | each cell of the walk is on the grid, each one's parent is the next, consecutive cells are adjacent, and the last cell has no parent |
| Sketch.Engine.PathGoesBackInTime | sketch.js:122-123 | every cell of the walk after the first was visited, each earlier than the one before it, so no cell appears twice |
| Sketch.Engine.PathEndsAtStart | sketch.js:116-124 | from a visited cell, the walk ends at the start |
| Sketch.Engine.PathFromEndReachesStart | sketch.js:116-124 | once `done` is set, the walk from the end follows parent links between adjacent cells, never repeats a cell, and ends at the start |
| Sketch.Engine.ShowPath | sketch.js:116-124 | with no cursor, the cursor returns to the end and nothing is marked; otherwise the cursor's cell is marked on the path and the cursor moves to its parent, which removes exactly the first cell of the walk still to mark |
| JsCollections.DistinctConcat | sketch.js:159 | pushing cells that are not yet in a duplicate-free queue keeps it duplicate-free |
| JsCollections.SetAdd | sketch.js:225 | `Set.add` adds the member if it is new, at the end, and keeps the earlier members in order and without duplicates |
| JsCollections.SetDelete | sketch.js:218 | `Set.delete` removes exactly the member, and from a duplicate-free set that holds it, the result is the set with that one position cut out, the others in their order |
| JsCollections.AddAll | sketch.js:221-226 | adding a list of cells one by one leaves the old members first and holds exactly the old members and the added cells, without duplicates |
| JsCollections.AddAllGrows | sketch.js:225 | adding one more cell of the list is one more `Set.add` |
| Geometry.Kept | sketch.js:126-143 | the kept neighbours are exactly the flagged ones, in the order up, down, left, right |
| Geometry.Manhattan | sketch.js:204 | the Manhattan term of the heuristic is zero exactly on the goal itself, and does not depend on the order of the two cells |
| Geometry.ManhattanAdjacent | sketch.js:204 | moving to an adjacent cell changes the Manhattan term by exactly one |
| Geometry.AdjacentIsOneStep | sketch.js:126-143 | the four neighbours are exactly the cells one step away along one axis |
| Geometry.DirectionOrderDistinct | sketch.js:126-143 | neighbours listed in direction order are all different |

## Left out

- Rendering is not modelled: `show`, `printCells`, the canvas, and the cell width and height.
- Frame scheduling is not modelled: `draw`'s loop, `loop()` and `noLoop()`. `draw` only calls a step while that search's flag is set, so each step method requires its flag. It only calls `showPath` once `done` is set.
- The heuristic (`sketch.js:203-207`) and the `/ 1.03` are floating-point arithmetic and are not modelled. Only the heuristic's Manhattan term is modelled, as `Geometry.Manhattan`. The new score is a parameter, `nextScore(neighbour, current.score)`, and scores are integers.
- The grid size is not fixed at 40 by 40. It is a parameter, limited to the sizes for which `resetToEmpty` only touches cells that exist. The 40 by 40 layout is stated by `SketchGridLayout`.
- Object identity is not modelled. A cell is its coordinates, so two references to one cell cannot be told apart. The `i` and `j` fields are the coordinates themselves.
- Before their button is first clicked, `bfsQueue`, `dfsStack` and `astarSet` are `undefined` (`sketch.js:10-12`). The model starts them empty. No step can tell the difference, because each step requires its launch flag and only the click handler sets it, after creating the frontier.
- A step that throws (`current` is undefined or null) is modelled as an outcome with nothing changed. The `noLoop()` before it and the exception itself are not modelled.
- Sketch.Engine.AstarStep: scores are unbounded integers, not IEEE doubles, so the comparison with 10000000 is exact.
