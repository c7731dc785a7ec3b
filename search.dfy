/** The search entry points: `bfs` and `dfs` as loops over a frontier and a
    backtrack map, the `greedy` and `astar` stubs, and the dispatcher from a
    method name to one of them. */
module Search {
  import opened Seqs
  import opened Grid
  import opened Exploration

  /** Both loops of `bfs`/`dfs`; `d` says whether the frontier is popped at
      the front (`popleft()`) or at the back (`pop()`). The result is exactly
      the one the exploration model describes. */
  method Explore(m: Maze, d: Discipline) returns (path: seq<Cell>, explored: nat, ghost pops: nat)
    requires Valid(m)
    ensures Outcome(path, explored) == Answer(m, d)
    ensures pops == Iterations(m, d, Init(m)) && pops <= explored
  {
    var frontier := [m.start];
    var backtrack := map[m.start := Sentinel];
    ghost var depth: map<Cell, nat> := map[m.start := 0];
    var current := m.start;
    pops := 0;
    while |frontier| != 0
      invariant WellFormed(m, State(frontier, backtrack, depth, current))
      invariant Run(m, d, State(frontier, backtrack, depth, current)) == Run(m, d, Init(m))
      invariant pops + Iterations(m, d, State(frontier, backtrack, depth, current)) == Iterations(m, d, Init(m))
      decreases Measure(m, State(frontier, backtrack, depth, current))
    {
      if m.isObjective(current) {
        break;
      }
      ghost var before := State(frontier, backtrack, depth, current);
      pops := pops + 1;
      if d == Fifo {
        current := frontier[0];
        frontier := frontier[1..];
      } else {
        current := frontier[|frontier| - 1];
        frontier := frontier[..|frontier| - 1];
      }
      frontier, backtrack, depth := DiscoverAll(m.neighbors(current), frontier, backtrack, depth, current);
      StepWellFormed(m, d, before);
    }
    assert State(frontier, backtrack, depth, current) == ExitState(m, d);
    path := Reconstruct(m, backtrack, depth, current);
    explored := |backtrack|;
    IterationsBound(m, d);
  }

  /** The inner `for neighbor in neighbors` loop: a neighbour not yet in
      `backtrack` is mapped to `current` and appended to the frontier. */
  method DiscoverAll(neighbors: seq<Cell>, frontier: seq<Cell>, backtrack: map<Cell, Cell>,
                     ghost depth: map<Cell, nat>, current: Cell)
    returns (frontier': seq<Cell>, backtrack': map<Cell, Cell>, ghost depth': map<Cell, nat>)
    requires backtrack.Keys == depth.Keys && current in backtrack
    ensures State(frontier', backtrack', depth', current)
      == Discover(neighbors, State(frontier, backtrack, depth, current))
  {
    frontier', backtrack', depth' := frontier, backtrack, depth;
    for i := 0 to |neighbors|
      invariant backtrack'.Keys == depth'.Keys && current in backtrack'
      invariant Discover(neighbors[i..], State(frontier', backtrack', depth', current))
        == Discover(neighbors, State(frontier, backtrack, depth, current))
    {
      var neighbor := neighbors[i];
      assert neighbors[i..][1..] == neighbors[i + 1..];
      if neighbor !in backtrack' {
        backtrack' := backtrack'[neighbor := current];
        depth' := depth'[neighbor := depth'[current] + 1];
        frontier' := frontier' + [neighbor];
      }
    }
  }

  /** The second loop of `bfs`/`dfs`: collect cells from `goal` back to the
      sentinel, then reverse them. */
  method Reconstruct(ghost m: Maze, backtrack: map<Cell, Cell>, ghost depth: map<Cell, nat>, goal: Cell)
    returns (path: seq<Cell>)
    requires Valid(m) && Tree(m, backtrack, depth) && goal in backtrack
    ensures path == Trace(m, backtrack, depth, goal)
  {
    var current := goal;
    var reversed := [];
    while current != Sentinel
      invariant current == Sentinel || current in backtrack
      invariant Trace(m, backtrack, depth, goal)
        == Remaining(m, backtrack, depth, current) + Reverse(reversed)
      decreases if current == Sentinel then 0 else depth[current] + 1
    {
      ReconstructStep(m, backtrack, depth, goal, current, reversed);
      reversed := reversed + [current];
      current := backtrack[current];
    }
    path := Reverse(reversed);
  }

  /** `bfs(maze)`. */
  method Bfs(m: Maze) returns (path: seq<Cell>, explored: nat)
    requires Valid(m)
    ensures Outcome(path, explored) == Answer(m, Fifo)
  {
    ghost var pops;
    path, explored, pops := Explore(m, Fifo);
  }

  /** `dfs(maze)`. */
  method Dfs(m: Maze) returns (path: seq<Cell>, explored: nat)
    requires Valid(m)
    ensures Outcome(path, explored) == Answer(m, Lifo)
  {
    ghost var pops;
    path, explored, pops := Explore(m, Lifo);
  }

  /** `greedy(maze)`: not implemented; always returns `([], 0)`. */
  method Greedy(m: Maze) returns (path: seq<Cell>, explored: nat)
    ensures path == [] && explored == 0
  {
    path, explored := [], 0;
  }

  /** `astar(maze)`: not implemented; always returns `([], 0)`. */
  method Astar(m: Maze) returns (path: seq<Cell>, explored: nat)
    ensures path == [] && explored == 0
  {
    path, explored := [], 0;
  }

  /** The four search functions the dispatch table names. */
  datatype Strategy = BreadthFirst | DepthFirst | GreedyBestFirst | AStar

  /** The dispatch table of `search`. */
  const Table: map<string, Strategy> := map[
    "bfs" := BreadthFirst,
    "dfs" := DepthFirst,
    "greedy" := GreedyBestFirst,
    "astar" := AStar]

  /** Calling the `None` that `.get` returns for an unknown name fails. */
  datatype Error = UnknownMethod(name: string)

  datatype Result<T> = Ok(value: T) | Err(error: Error)

  /** `search(maze, searchMethod)`: look the name up and call the function
      found; an unknown name is an error. */
  method Search(m: Maze, name: string) returns (r: Result<Outcome>)
    requires name in Table && Table[name] in {BreadthFirst, DepthFirst} ==> Valid(m)
    ensures name == "bfs" ==> r == Ok(Answer(m, Fifo))
    ensures name == "dfs" ==> r == Ok(Answer(m, Lifo))
    ensures name == "greedy" || name == "astar" ==> r == Ok(Outcome([], 0))
    ensures name !in {"bfs", "dfs", "greedy", "astar"} ==> r == Err(UnknownMethod(name))
  {
    if name !in Table {
      return Err(UnknownMethod(name));
    }
    var path, explored;
    match Table[name] {
      case BreadthFirst => path, explored := Bfs(m);
      case DepthFirst => path, explored := Dfs(m);
      case GreedyBestFirst => path, explored := Greedy(m);
      case AStar => path, explored := Astar(m);
    }
    r := Ok(Outcome(path, explored));
  }
}
