# search.py: grid search over an abstract maze

This project models `search.py`, the entry point of a maze-solving
assignment. It contains:

- `manhattan`, the Manhattan distance between two `(row, col)` positions;
- `search`, a dispatcher from a method name to a search function;
- `bfs` and `dfs`, which explore the maze and reconstruct a path. Exploration
  uses a frontier (a FIFO deque or a LIFO list) and a `backtrack` dictionary
  from each discovered cell to its predecessor. The start maps to the sentinel
  `(-1, -1)`.
- `greedy` and `astar`, two stubs.

The maze is an external object. It is represented only by the queries the
code makes of it (module `Grid`):

- a finite set of cells holding the start;
- `neighbors`, a function from a cell to the sequence `getNeighbors` returns,
  closed over that set;
- `isObjective`.

`Grid.Valid` adds one requirement: no real cell is the sentinel.

Modules:

- `Seqs`: `Reverse` (Python's `[::-1]`), repetition-free sequences, and sizes
  of sets.
- `Grid`: cells, the maze, walks from the start, and reachable cells.
- `Heuristic`: `manhattan`.
- `Exploration`: the specification layer. The two loops are written as ghost
  functions on a state `(frontier, backtrack, depth, current)`:
  - `Discover` is the `for neighbor in neighbors` loop;
  - `Step` is one pop followed by discovery;
  - `Run` is the outer `while` with its objective test before the pop;
  - `Trace` follows predecessors back to the sentinel.

  `depth` is model-only bookkeeping: the number of backtrack edges from a
  cell to the start. `Answer(m, d)` is the `(path, len(backtrack))` pair the
  code returns. The loop invariant `Inv` and the lemmas about `Answer` state
  what this pair satisfies.
- `Search`: the imperative code.
  - `Explore` holds both exploration loops, parameterised by the discipline:
    `Fifo` for `popleft()`, `Lifo` for `pop()`.
  - `DiscoverAll` is the inner `for` loop; `Reconstruct` is the
    path-rebuilding loop.
  - `Bfs` and `Dfs` call `Explore`, and `Greedy` and `Astar` are the stubs.
  - `Search` dispatches through the table of names.

  Each method is proved to compute exactly what the `Exploration` functions
  describe.

On four points the code does something other than what a reader of a
search assignment might expect; the model follows the code:

- The code tests `isObjective(current)` at the top of the loop, before it
  pops, rather than right after the pop. A popped objective therefore has
  its undiscovered neighbours added to `backtrack` (and counted) before the
  next test ends the loop. `Exploration.LastExpanded` and
  `Exploration.ObjectiveReached` state this behaviour.
- When no objective is reachable, the code does not report "no path": it
  returns the path to the cell it popped last, which is not an objective.
  `Exploration.ObjectiveReached` states what the code does.
- The code does not validate the method name. An unknown name makes `.get`
  return `None`, and calling it raises. The model returns
  `Err(UnknownMethod(name))`.
- `greedy` and `astar` return `([], 0)`. There is no heuristic search, no
  helper for the nearest of several objectives, and no multi-objective
  chaining.

## Model

| member | source | states |
|---|---|---|
| Heuristic.Manhattan | search.py:28-31 | the distance is a natural number that is zero exactly when the two positions are equal |
| Heuristic.ManhattanSymmetric | search.py:28-31 | swapping the two positions gives the same distance |
| Heuristic.ManhattanTriangle | search.py:28-31 | the distance satisfies the triangle inequality |
| Search.Search | search.py:33-39 | `"bfs"` returns the breadth-first answer, `"dfs"` the depth-first one, `"greedy"` and `"astar"` return `([], 0)`, and any other name is an `UnknownMethod` error |
| Search.Explore | search.py:43-88 | the exploration loop followed by reconstruction returns exactly `Answer(m, d)` for the chosen pop discipline; the number of cells it pops equals `Iterations` of the model and is at most the returned count |
| Exploration.Init | search.py:45-48 | the frontier holds the start, the start maps to the sentinel `(-1, -1)`, and `current` is the start |
| Exploration.Pop | search.py:52 | `popleft()` takes the first frontier cell for breadth-first and `pop()` the last one for depth-first (search.py:76); the rest of the frontier stays in order |
| Exploration.Discover | search.py:54-57 | the neighbours are visited left to right; one not yet in `backtrack` is mapped to `current`, one level deeper, and appended to the frontier; one already there is skipped |
| Exploration.Step | search.py:52-57 | one iteration that does not break: pop a cell, make it `current`, discover its neighbours |
| Exploration.Run | search.py:49-57 | the outer loop: it stops on an empty frontier or an objective `current`; otherwise it takes a Step |
| Exploration.Trace | search.py:59-62 | from a cell, follow `backtrack` to the sentinel; the cells met, start first |
| Exploration.Answer | search.py:59-64 | the path traced from the final `current` and `len(backtrack)` of the state the loop ends in |
| Search.Bfs | search.py:43-64 | `bfs` returns the first-in-first-out answer |
| Search.Dfs | search.py:68-88 | `dfs` returns the last-in-first-out answer |
| Search.DiscoverAll | search.py:54-57 | the inner loop leaves frontier, backtrack map and depths as the left-to-right discovery over the neighbour list does |
| Search.Reconstruct | search.py:59-64 | following predecessors from the goal to the sentinel and reversing yields the start-to-goal trace of the backtrack tree |
| Search.Greedy | search.py:91-93 | returns the empty path and a count of zero |
| Search.Astar | search.py:96-99 | returns the empty path and a count of zero |
| Seqs.Reverse | search.py:64 | `path[::-1]` has the same length, and element `i` is element `len-1-i` of the input |
| Seqs.ReverseSnoc | search.py:61-64 | reversing a path after appending a cell puts that cell first |
| Exploration.ExitState | search.py:49-51 | the loop ends in a state that keeps the invariant, with an empty frontier or an objective `current` |
| Exploration.DiscoverMaps | search.py:54-57 | discovery only adds keys and never overwrites one; the added keys are exactly the neighbours not yet seen, each mapped to `current` one level deeper |
| Exploration.DiscoverFrontier | search.py:54-57 | discovery keeps the frontier as a prefix and appends exactly the new keys, each once |
| Exploration.PopFacts | search.py:52 | the popped cell came from the frontier and is gone from what is left, which stays repetition-free |
| Exploration.InitInv | search.py:45-48 | the state before the loop satisfies the loop invariant |
| Exploration.StepWellFormed | search.py:49-57 | after an iteration every frontier cell is a backtrack key, and undiscovered plus waiting cells strictly decrease, so the loop terminates |
| Exploration.StepPopped | search.py:52-57 | an iteration pops a cell not popped before; the popped set grows by exactly that cell; the frontier stays repetition-free |
| Exploration.StepTree | search.py:52-57 | an iteration keeps the backtrack map a tree: each non-start key maps to a key it is a neighbour of; old entries are unchanged |
| Exploration.StepExpanded | search.py:50-57 | after an iteration every popped cell has all neighbours discovered, and only the new `current` may be an objective |
| Exploration.StepLayered | search.py:52-57 | with `popleft()`, the frontier stays sorted by depth within one level of `current`, and no key lies more than one level below it |
| Exploration.StepInv | search.py:49-57 | an iteration that does not break keeps the whole loop invariant |
| Exploration.RunInv | search.py:49-57 | the loop keeps the invariant to its end and stops with an empty frontier or an objective `current` |
| Exploration.RunExtends | search.py:55-56 | no backtrack entry present at any point of the loop is ever changed |
| Exploration.IterationsPop | search.py:49-52 | each popping iteration adds one cell to the popped set |
| Exploration.IterationsBound | search.py:49-57 | the popping iterations of Run number at most the discovered cells, i.e. at most the returned count; `Search.Explore` counts its own pops and ensures they equal these iterations |
| Exploration.TraceFacts | search.py:59-64 | the rebuilt path starts at the start, ends at the goal, moves between neighbours, has one cell per level of depth and no repetition |
| Exploration.ReconstructStep | search.py:60-62 | one reconstruction iteration preserves "path = what is left + reverse of what is collected" and moves to a shallower key or the sentinel |
| Exploration.KeysReachable | search.py:55-57 | every discovered cell is reachable from the start |
| Exploration.StartIsObjective | search.py:45-51 | if the start is an objective the answer is `([start], 1)` |
| Exploration.PathShape | search.py:59-64 | the returned path is a repetition-free walk from the start to the final `current`, no longer than the count; the count is between 1 and the number of reachable cells |
| Exploration.ObjectiveReached | search.py:49-52 | the path ends at an objective if and only if some objective is reachable; otherwise every reachable cell was counted and the path ends at the final `current`, which was popped |
| Exploration.Exhausted | search.py:49-57 | a loop that stops without an objective `current` has discovered and expanded every reachable cell, and none of them is an objective |
| Exploration.BfsShortest | search.py:43-64 | when breadth-first search ends at an objective, no walk from the start to any objective has fewer cells than the returned path |
| Exploration.LastExpanded | search.py:50-57 | when the start is not an objective, the final `current` was popped and all its neighbours were discovered (and counted) |

## Left out

- The maze object: file parsing, walls, `getObjectives`, and how
  `getNeighbors` computes neighbours. The model takes the neighbour function,
  objective test and cell set as parameters.
- `isObjective(row, col)` and `getNeighbors(row, col)` take a `Cell` in the
  model rather than two coordinates.
- `Grid.Valid` requires that no cell of the maze is `(-1, -1)`. The sentinel
  is in-band in the code, and the code would stop reconstructing early at
  such a cell.
- Python's `deque` and `dict` internals (hashing, amortised costs). The
  frontier is a `seq` and the backtrack dictionary a `map`.
- Search.Search: the `TypeError` from calling `None` is modelled as an error
  result, not as an exception.
- Search.Search requires a valid maze only for `"bfs"` and `"dfs"`, the two
  names whose functions use the maze.
- The unused `num_states_explored = 0` in `bfs` (search.py:44) has no effect
  and is not modelled.
- The command-line driver, timing and rendering live outside this file and
  are not part of this model.
- Greedy and A* search with priority queues, the nearest-objective heuristic
  and multi-objective chaining do not exist in this code (the functions are
  stubs). They are not invented here.
