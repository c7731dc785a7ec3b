/** The exploration loop shared by `bfs` and `dfs`, written as functions on a
    search state, with the invariants it keeps and what they imply about the
    returned path and explored count. The methods in module Search compute
    exactly `Answer`. */
module Exploration {
  import opened Seqs
  import opened Grid

  /** Which end of the frontier `pop` takes: `popleft()` for breadth-first,
      `pop()` for depth-first. */
  datatype Discipline = Fifo | Lifo

  /** The loop's variables. `depth` is bookkeeping of the model only: the
      number of backtrack edges from a discovered cell to the start. */
  datatype State = State(
    frontier: seq<Cell>,
    backtrack: map<Cell, Cell>,
    depth: map<Cell, nat>,
    current: Cell)

  /** What a search returns: the path and `len(backtrack)`. */
  datatype Outcome = Outcome(path: seq<Cell>, explored: nat)

  /** Before the loop: the frontier holds the start, the start maps to the
      sentinel, and `current` is the start. */
  ghost function Init(m: Maze): State
  {
    State([m.start], map[m.start := Sentinel], map[m.start := 0], m.start)
  }

  /** Cells taken off the frontier so far: discovered, no longer waiting. */
  ghost function Popped(s: State): set<Cell>
  {
    s.backtrack.Keys - Elems(s.frontier)
  }

  /** What the loop needs to take a step at all. */
  ghost predicate WellFormed(m: Maze, s: State)
  {
    && Valid(m)
    && s.backtrack.Keys == s.depth.Keys
    && s.backtrack.Keys <= m.cells
    && (forall i :: 0 <= i < |s.frontier| ==> s.frontier[i] in s.backtrack)
    && s.current in s.backtrack
  }

  /** The inner `for neighbor in neighbors` loop: each neighbour not yet in
      `backtrack` is mapped to `current` and appended to the frontier. */
  ghost function Discover(ns: seq<Cell>, s: State): State
    requires s.current in s.depth
    decreases |ns|
  {
    if ns == [] then s
    else if ns[0] in s.backtrack then Discover(ns[1..], s)
    else
      Discover(ns[1..], s.(
        frontier := s.frontier + [ns[0]],
        backtrack := s.backtrack[ns[0] := s.current],
        depth := s.depth[ns[0] := s.depth[s.current] + 1]))
  }

  /** Where the frontier is popped from, and what is left. */
  ghost function Pop(d: Discipline, f: seq<Cell>): (Cell, seq<Cell>)
    requires |f| > 0
  {
    if d == Fifo then (f[0], f[1..]) else (f[|f| - 1], f[..|f| - 1])
  }

  /** One iteration of the outer loop after the objective test: pop a cell,
      make it `current`, discover its neighbours. */
  ghost function Step(m: Maze, d: Discipline, s: State): State
    requires WellFormed(m, s) && |s.frontier| > 0
  {
    var (h, rest) := Pop(d, s.frontier);
    Discover(m.neighbors(h), State(rest, s.backtrack, s.depth, h))
  }

  /** The loop measure: undiscovered cells plus waiting cells. */
  ghost function Measure(m: Maze, s: State): nat
  {
    |m.cells - s.backtrack.Keys| + |s.frontier|
  }

  /** The outer loop: stop when the frontier is empty or `current` is an
      objective (tested before popping), otherwise take a step. */
  ghost function Run(m: Maze, d: Discipline, s: State): State
    requires WellFormed(m, s)
    decreases Measure(m, s)
  {
    if |s.frontier| == 0 || m.isObjective(s.current) then s
    else
      StepWellFormed(m, d, s);
      Run(m, d, Step(m, d, s))
  }

  /** The number of iterations of the outer loop that pop a cell. */
  ghost function Iterations(m: Maze, d: Discipline, s: State): nat
    requires WellFormed(m, s)
    decreases Measure(m, s)
  {
    if |s.frontier| == 0 || m.isObjective(s.current) then 0
    else
      StepWellFormed(m, d, s);
      1 + Iterations(m, d, Step(m, d, s))
  }

  /** The backtrack map is a tree rooted at the start: the start maps to the
      sentinel; every other key maps to a key it is a neighbour of, one level
      deeper. */
  ghost predicate Tree(m: Maze, bt: map<Cell, Cell>, depth: map<Cell, nat>)
  {
    && bt.Keys == depth.Keys
    && bt.Keys <= m.cells
    && m.start in bt && bt[m.start] == Sentinel && depth[m.start] == 0
    && forall c :: c in bt && c != m.start ==>
         bt[c] in bt && c in m.neighbors(bt[c]) && depth[c] == depth[bt[c]] + 1
  }

  /** The reconstruction loop: follow predecessors from `c` back to the
      sentinel, then reverse; here the path is built start first. */
  ghost function Trace(m: Maze, bt: map<Cell, Cell>, depth: map<Cell, nat>, c: Cell): seq<Cell>
    requires Valid(m) && Tree(m, bt, depth) && c in bt
    decreases depth[c]
  {
    if bt[c] == Sentinel then [c] else Trace(m, bt, depth, bt[c]) + [c]
  }

  /** Breadth-first layering: the frontier is sorted by depth, spans at most
      one level above `current`, every key is at most one level below
      `current`, every popped cell is no deeper than `current`, and a popped
      cell's neighbours are at most one level deeper than it. */
  ghost predicate Layered(m: Maze, s: State)
    requires WellFormed(m, s)
  {
    && (forall i, j :: 0 <= i <= j < |s.frontier| ==> s.depth[s.frontier[i]] <= s.depth[s.frontier[j]])
    && (forall i :: 0 <= i < |s.frontier| ==> s.depth[s.current] <= s.depth[s.frontier[i]])
    && (forall c :: c in s.backtrack ==> s.depth[c] <= s.depth[s.current] + 1)
    && (forall p :: p in Popped(s) ==> s.depth[p] <= s.depth[s.current])
    && (forall p :: p in Popped(s) ==>
          forall n :: n in m.neighbors(p) && n in s.backtrack ==> s.depth[n] <= s.depth[p] + 1)
  }

  /** The loop invariant. */
  ghost predicate Inv(m: Maze, d: Discipline, s: State)
  {
    && WellFormed(m, s)
    && Tree(m, s.backtrack, s.depth)
    && Distinct(s.frontier)
    // an expanded cell has had all its neighbours discovered
    && (forall p :: p in Popped(s) ==> forall n :: n in m.neighbors(p) ==> n in s.backtrack)
    // `current` is the cell popped last, or the start before any pop
    && (s.current in Popped(s) || (Popped(s) == {} && s.current == m.start))
    // only the cell popped last may be an objective
    && (forall p :: p in Popped(s) && p != s.current ==> !m.isObjective(p))
    && (d == Fifo ==> Layered(m, s))
  }

  /** The state the loop exits in: the invariant holds, and the frontier is
      empty or `current` is an objective. */
  ghost function ExitState(m: Maze, d: Discipline): (s: State)
    requires Valid(m)
    ensures Inv(m, d, s)
    ensures |s.frontier| == 0 || m.isObjective(s.current)
  {
    InitInv(m, d);
    RunInv(m, d, Init(m));
    Run(m, d, Init(m))
  }

  /** The path and count returned for a maze. */
  ghost function Answer(m: Maze, d: Discipline): Outcome
    requires Valid(m)
  {
    var s := ExitState(m, d);
    Outcome(Trace(m, s.backtrack, s.depth, s.current), |s.backtrack|)
  }

  // ---------------------------------------------------------------------
  // Discovery of neighbours

  /** The inner loop only adds keys (never overwrites one) and maps each
      new key, one level deeper, to `current`. */
  lemma {:induction false} DiscoverMaps(ns: seq<Cell>, s: State)
    requires s.current in s.depth && s.backtrack.Keys == s.depth.Keys
    ensures var r := Discover(ns, s);
      && r.current == s.current
      && r.backtrack.Keys == s.backtrack.Keys + Elems(ns)
      && r.depth.Keys == r.backtrack.Keys
      && (forall c :: c in s.backtrack ==> r.backtrack[c] == s.backtrack[c] && r.depth[c] == s.depth[c])
      && (forall c :: c in r.backtrack && c !in s.backtrack ==>
            r.backtrack[c] == s.current && r.depth[c] == s.depth[s.current] + 1)
    decreases |ns|
  {
    if ns != [] {
      var r := Discover(ns, s);
      assert Elems(ns) == Elems(ns[1..]) + {ns[0]};
      if ns[0] in s.backtrack {
        assert r == Discover(ns[1..], s);
        DiscoverMaps(ns[1..], s);
      } else {
        var s' := s.(
          frontier := s.frontier + [ns[0]],
          backtrack := s.backtrack[ns[0] := s.current],
          depth := s.depth[ns[0] := s.depth[s.current] + 1]);
        assert r == Discover(ns[1..], s');
        DiscoverMaps(ns[1..], s');
      }
    }
  }

  /** The inner loop appends to the frontier exactly the keys it adds, each
      once. */
  lemma {:induction false} DiscoverFrontier(ns: seq<Cell>, s: State)
    requires s.current in s.depth
    ensures var r := Discover(ns, s);
      && |r.frontier| >= |s.frontier| && r.frontier[..|s.frontier|] == s.frontier
      && s.backtrack.Keys <= r.backtrack.Keys
      && Elems(r.frontier[|s.frontier|..]) == r.backtrack.Keys - s.backtrack.Keys
      && Distinct(r.frontier[|s.frontier|..])
    decreases |ns|
  {
    var r := Discover(ns, s);
    if ns == [] {
      assert r.frontier[|s.frontier|..] == [];
    } else if ns[0] in s.backtrack {
      DiscoverFrontier(ns[1..], s);
    } else {
      var s' := s.(
        frontier := s.frontier + [ns[0]],
        backtrack := s.backtrack[ns[0] := s.current],
        depth := s.depth[ns[0] := s.depth[s.current] + 1]);
      assert r == Discover(ns[1..], s');
      DiscoverFrontier(ns[1..], s');
      var added := r.frontier[|s.frontier|..];
      var added' := r.frontier[|s'.frontier|..];
      assert r.frontier[..|s'.frontier|] == s'.frontier;
      assert r.frontier[..|s.frontier|] == r.frontier[..|s'.frontier|][..|s.frontier|];
      assert added == [ns[0]] + added';
      assert Elems(added) == Elems(added') + {ns[0]};
      assert ns[0] !in Elems(added');
    }
  }

  /** Removing the popped cell from a repetition-free frontier. */
  lemma PopFacts(d: Discipline, f: seq<Cell>)
    requires |f| > 0 && Distinct(f)
    ensures var (h, rest) := Pop(d, f);
      && h in f && h !in rest
      && |rest| == |f| - 1
      && Distinct(rest)
      && Elems(f) == Elems(rest) + {h}
      && (forall i :: 0 <= i < |rest| ==> rest[i] in f)
  {
    var (h, rest) := Pop(d, f);
    if d == Fifo {
      assert f == [h] + rest;
    } else {
      assert f == rest + [h];
    }
  }

  /** Taking away a disjoint, repetition-free sequence of cells. */
  lemma CardRemove(cells: set<Cell>, known: set<Cell>, added: seq<Cell>)
    requires Distinct(added)
    requires Elems(added) <= cells && Elems(added) !! known
    ensures |cells - (known + Elems(added))| == |cells - known| - |added|
  {
    DistinctCard(added);
    assert cells - known == (cells - (known + Elems(added))) + Elems(added);
  }

  /** A step keeps the state well formed and decreases the measure. */
  lemma StepWellFormed(m: Maze, d: Discipline, s: State)
    requires WellFormed(m, s) && |s.frontier| > 0
    ensures WellFormed(m, Step(m, d, s))
    ensures Measure(m, Step(m, d, s)) < Measure(m, s)
  {
    var (h, rest) := Pop(d, s.frontier);
    var s0 := State(rest, s.backtrack, s.depth, h);
    var r := Step(m, d, s);
    var ns := m.neighbors(h);
    assert r == Discover(ns, s0);
    assert rest == if d == Fifo then s.frontier[1..] else s.frontier[..|s.frontier| - 1];
    assert h in s.backtrack by {
      var k := if d == Fifo then 0 else |s.frontier| - 1;
      assert h == s.frontier[k];
    }
    DiscoverMaps(ns, s0);
    DiscoverFrontier(ns, s0);
    assert Elems(ns) <= m.cells by {
      forall c | c in Elems(ns) ensures c in m.cells {
        var k :| 0 <= k < |ns| && ns[k] == c;
      }
    }
    var added := r.frontier[|rest|..];
    assert r.frontier == rest + added;
    forall i | 0 <= i < |r.frontier| ensures r.frontier[i] in r.backtrack {
      if i < |rest| {
        var k := if d == Fifo then i + 1 else i;
        assert rest[i] == s.frontier[k];
      } else {
        assert r.frontier[i] == added[i - |rest|];
        assert added[i - |rest|] in Elems(added);
      }
    }
    CardRemove(m.cells, s.backtrack.Keys, added);
  }

  // ---------------------------------------------------------------------
  // The invariant

  lemma InitInv(m: Maze, d: Discipline)
    requires Valid(m)
    ensures Inv(m, d, Init(m))
  {
    var s := Init(m);
    assert Elems(s.frontier) == {m.start};
    assert Popped(s) == {};
  }

  /** Which cells are popped after a step: those before, and the new
      `current`. */
  lemma StepPopped(m: Maze, d: Discipline, s: State)
    requires WellFormed(m, s) && Distinct(s.frontier) && |s.frontier| > 0
    ensures var r := Step(m, d, s);
      && r.current == Pop(d, s.frontier).0
      && r.current !in Popped(s)
      && Popped(r) == Popped(s) + {r.current}
      && Distinct(r.frontier)
  {
    var (h, rest) := Pop(d, s.frontier);
    var s0 := State(rest, s.backtrack, s.depth, h);
    var r := Step(m, d, s);
    PopFacts(d, s.frontier);
    DiscoverMaps(m.neighbors(h), s0);
    DiscoverFrontier(m.neighbors(h), s0);
    var added := r.frontier[|rest|..];
    assert r.frontier == rest + added;
    assert Elems(r.frontier) == Elems(rest) + Elems(added);
    assert Elems(s.frontier) <= s.backtrack.Keys;
    assert Distinct(r.frontier) by {
      forall i, j | 0 <= i < j < |r.frontier| ensures r.frontier[i] != r.frontier[j] {
        if j >= |rest| && i < |rest| {
          assert r.frontier[j] == added[j - |rest|];
          assert r.frontier[i] in s.backtrack;
        } else if i >= |rest| {
          assert r.frontier[i] == added[i - |rest|] && r.frontier[j] == added[j - |rest|];
        }
      }
    }
  }

  /** The tree shape and the expansion facts survive a step. */
  lemma StepTree(m: Maze, d: Discipline, s: State)
    requires WellFormed(m, s) && Tree(m, s.backtrack, s.depth) && |s.frontier| > 0
    ensures var r := Step(m, d, s);
      && WellFormed(m, r)
      && Tree(m, r.backtrack, r.depth)
      && (forall c :: c in s.backtrack ==> c in r.backtrack && r.backtrack[c] == s.backtrack[c] && r.depth[c] == s.depth[c])
      && (forall c :: c in r.backtrack && c !in s.backtrack ==>
            r.backtrack[c] == r.current && r.depth[c] == r.depth[r.current] + 1)
      && (forall n :: n in m.neighbors(r.current) ==> n in r.backtrack)
  {
    var (h, rest) := Pop(d, s.frontier);
    var s0 := State(rest, s.backtrack, s.depth, h);
    var ns := m.neighbors(h);
    var r := Step(m, d, s);
    assert r == Discover(ns, s0);
    assert h in s.backtrack by {
      var k := if d == Fifo then 0 else |s.frontier| - 1;
      assert h == s.frontier[k];
    }
    StepWellFormed(m, d, s);
    DiscoverMaps(ns, s0);
    forall c | c in r.backtrack && c != m.start
      ensures r.backtrack[c] in r.backtrack && c in m.neighbors(r.backtrack[c])
      ensures r.depth[c] == r.depth[r.backtrack[c]] + 1
    {
      if c in s.backtrack {
        assert s.backtrack[c] in s.backtrack;
      } else {
        assert c in Elems(ns);
      }
    }
    assert forall n :: n in ns ==> n in Elems(ns);
  }

  /** A step keeps the invariant. */
  lemma StepInv(m: Maze, d: Discipline, s: State)
    requires Inv(m, d, s) && |s.frontier| > 0 && !m.isObjective(s.current)
    ensures Inv(m, d, Step(m, d, s))
  {
    StepPopped(m, d, s);
    StepTree(m, d, s);
    StepExpanded(m, d, s);
    if d == Fifo {
      StepLayered(m, s);
    }
  }

  /** After a step the popped cells are those before plus the new `current`,
      all of them expanded, and none but `current` an objective. */
  lemma StepExpanded(m: Maze, d: Discipline, s: State)
    requires WellFormed(m, s) && Distinct(s.frontier) && |s.frontier| > 0
    requires forall p :: p in Popped(s) ==> forall n :: n in m.neighbors(p) ==> n in s.backtrack
    requires forall p :: p in Popped(s) && p != s.current ==> !m.isObjective(p)
    requires !m.isObjective(s.current)
    ensures var r := Step(m, d, s);
      && (forall p :: p in Popped(r) ==> forall n :: n in m.neighbors(p) ==> n in r.backtrack)
      && r.current in Popped(r)
      && (forall p :: p in Popped(r) && p != r.current ==> !m.isObjective(p))
  {
    StepPopped(m, d, s);
    StepDepths(m, d, s);
  }

  /** Breadth-first layering survives a step. */
  lemma StepLayered(m: Maze, s: State)
    requires WellFormed(m, s) && Distinct(s.frontier) && |s.frontier| > 0 && Layered(m, s)
    requires forall p :: p in Popped(s) ==> forall n :: n in m.neighbors(p) ==> n in s.backtrack
    ensures WellFormed(m, Step(m, Fifo, s)) && Layered(m, Step(m, Fifo, s))
  {
    var h := s.frontier[0];
    var r := Step(m, Fifo, s);
    StepWellFormed(m, Fifo, s);
    StepAdded(m, Fifo, s);
    StepDepths(m, Fifo, s);
    StepPopped(m, Fifo, s);
    assert s.depth[s.current] <= s.depth[h];
    LayeredFrontier(s, r, h);
    LayeredKeys(m, s, r, h);
  }

  /** How a step changes depths: old keys keep theirs, new keys lie one
      level below the popped cell, and every neighbour of it is a key. */
  lemma StepDepths(m: Maze, d: Discipline, s: State)
    requires WellFormed(m, s) && |s.frontier| > 0
    ensures var r := Step(m, d, s);
      && r.current == Pop(d, s.frontier).0 && r.current in s.depth
      && r.depth.Keys == r.backtrack.Keys
      && (forall c :: c in s.backtrack ==> c in r.backtrack && r.depth[c] == s.depth[c])
      && (forall c :: c in r.backtrack && c !in s.backtrack ==> r.depth[c] == s.depth[r.current] + 1)
      && (forall n :: n in m.neighbors(r.current) ==> n in r.backtrack)
  {
    var (h, rest) := Pop(d, s.frontier);
    var s0 := State(rest, s.backtrack, s.depth, h);
    var ns := m.neighbors(h);
    assert Step(m, d, s) == Discover(ns, s0);
    assert h in s.backtrack by {
      var k := if d == Fifo then 0 else |s.frontier| - 1;
      assert h == s.frontier[k];
    }
    DiscoverMaps(ns, s0);
    assert forall n :: n in ns ==> n in Elems(ns);
  }

  /** What a step appends to the frontier: cells new to the backtrack map,
      one level below the popped cell. */
  lemma StepAdded(m: Maze, d: Discipline, s: State)
    requires WellFormed(m, s) && |s.frontier| > 0
    ensures var (h, rest) := Pop(d, s.frontier);
      var r := Step(m, d, s);
      && r.current == h
      && |r.frontier| >= |rest|
      && (forall i :: 0 <= i < |rest| ==> r.frontier[i] == rest[i])
      && forall i :: |rest| <= i < |r.frontier| ==>
           r.frontier[i] !in s.backtrack && r.frontier[i] in r.depth && r.depth[r.frontier[i]] == s.depth[h] + 1
  {
    var (h, rest) := Pop(d, s.frontier);
    assert h in s.frontier;
    var s0 := State(rest, s.backtrack, s.depth, h);
    var r := Step(m, d, s);
    DiscoverMaps(m.neighbors(h), s0);
    DiscoverFrontier(m.neighbors(h), s0);
    var added := r.frontier[|rest|..];
    forall i | |rest| <= i < |r.frontier|
      ensures r.frontier[i] !in s.backtrack && r.frontier[i] in r.depth && r.depth[r.frontier[i]] == s.depth[h] + 1
    {
      assert r.frontier[i] == added[i - |rest|];
      assert added[i - |rest|] in Elems(added);
    }
  }

  /** The frontier half of the layering after a `popleft()` and the
      appends. */
  lemma LayeredFrontier(s: State, r: State, h: Cell)
    requires |s.frontier| > 0 && h == s.frontier[0] && r.current == h
    requires |r.frontier| >= |s.frontier| - 1
    requires forall i :: 0 <= i < |s.frontier| - 1 ==> r.frontier[i] == s.frontier[i + 1]
    requires forall i :: 0 <= i < |s.frontier| ==> s.frontier[i] in s.depth
    requires forall i :: 0 <= i < |r.frontier| ==> r.frontier[i] in r.depth
    requires forall c :: c in s.depth ==> c in r.depth && r.depth[c] == s.depth[c]
    requires forall i :: |s.frontier| - 1 <= i < |r.frontier| ==> r.depth[r.frontier[i]] == s.depth[h] + 1
    requires forall i, j :: 0 <= i <= j < |s.frontier| ==> s.depth[s.frontier[i]] <= s.depth[s.frontier[j]]
    requires forall i :: 0 <= i < |s.frontier| ==> s.depth[s.frontier[i]] <= s.depth[h] + 1
    ensures forall i, j :: 0 <= i <= j < |r.frontier| ==> r.depth[r.frontier[i]] <= r.depth[r.frontier[j]]
    ensures forall i :: 0 <= i < |r.frontier| ==> r.depth[r.current] <= r.depth[r.frontier[i]]
  {
    var n := |s.frontier| - 1;
    forall i, j | 0 <= i <= j < |r.frontier| ensures r.depth[r.frontier[i]] <= r.depth[r.frontier[j]] {
      if j < n {
        assert r.depth[r.frontier[i]] == s.depth[s.frontier[i + 1]];
        assert r.depth[r.frontier[j]] == s.depth[s.frontier[j + 1]];
      } else if i < n {
        assert r.depth[r.frontier[i]] == s.depth[s.frontier[i + 1]];
      }
    }
    forall i | 0 <= i < |r.frontier| ensures r.depth[r.current] <= r.depth[r.frontier[i]] {
      if i < n {
        assert r.depth[r.frontier[i]] == s.depth[s.frontier[i + 1]];
        assert s.depth[s.frontier[0]] <= s.depth[s.frontier[i + 1]];
      }
    }
  }

  /** The key half of the layering after a `popleft()`: no key is more than
      one level below the new `current`, popped cells are no deeper, and the
      new `current`'s neighbours are at most one level deeper. */
  lemma LayeredKeys(m: Maze, s: State, r: State, h: Cell)
    requires WellFormed(m, s) && Layered(m, s) && |s.frontier| > 0 && h == s.frontier[0]
    requires forall p :: p in Popped(s) ==> forall n :: n in m.neighbors(p) ==> n in s.backtrack
    requires WellFormed(m, r) && r.current == h
    requires Popped(r) == Popped(s) + {h}
    requires forall c :: c in s.backtrack ==> c in r.backtrack && r.depth[c] == s.depth[c]
    requires forall c :: c in r.backtrack && c !in s.backtrack ==> r.depth[c] == s.depth[h] + 1
    requires forall n :: n in m.neighbors(h) ==> n in r.backtrack
    ensures forall c :: c in r.backtrack ==> r.depth[c] <= r.depth[r.current] + 1
    ensures forall p :: p in Popped(r) ==> r.depth[p] <= r.depth[r.current]
    ensures forall p :: p in Popped(r) ==>
      forall n :: n in m.neighbors(p) && n in r.backtrack ==> r.depth[n] <= r.depth[p] + 1
  {
    assert s.depth[s.current] <= s.depth[h];
    forall c | c in s.backtrack ensures s.depth[c] <= s.depth[h] + 1 {
    }
    forall p | p in Popped(r) ensures r.depth[p] <= r.depth[r.current] {
    }
    forall p, n | p in Popped(r) && n in m.neighbors(p) && n in r.backtrack
      ensures r.depth[n] <= r.depth[p] + 1
    {
      if p != h {
        assert p in Popped(s);
      }
    }
  }

  /** The loop keeps the invariant to its end, and ends with an empty
      frontier or an objective `current`. */
  lemma {:induction false} RunInv(m: Maze, d: Discipline, s: State)
    requires Inv(m, d, s)
    ensures var r := Run(m, d, s);
      && Inv(m, d, r)
      && (|r.frontier| == 0 || m.isObjective(r.current))
    decreases Measure(m, s)
  {
    if |s.frontier| != 0 && !m.isObjective(s.current) {
      StepWellFormed(m, d, s);
      StepInv(m, d, s);
      RunInv(m, d, Step(m, d, s));
    }
  }

  // ---------------------------------------------------------------------
  // Path reconstruction

  /** The reconstructed path is a walk from the start to `c` along which the
      depth grows by one per cell; hence no cell repeats. */
  lemma {:induction false} TraceFacts(m: Maze, bt: map<Cell, Cell>, depth: map<Cell, nat>, c: Cell)
    requires Valid(m) && Tree(m, bt, depth) && c in bt
    ensures var p := Trace(m, bt, depth, c);
      && |p| == depth[c] + 1
      && p[|p| - 1] == c
      && IsWalk(m, p)
      && (forall i :: 0 <= i < |p| ==> p[i] in bt && depth[p[i]] == i)
      && Distinct(p)
    decreases depth[c]
  {
    var p := Trace(m, bt, depth, c);
    if bt[c] != Sentinel {
      assert c != m.start;
      TraceFacts(m, bt, depth, bt[c]);
      var q := Trace(m, bt, depth, bt[c]);
      assert p == q + [c];
      assert forall i :: 0 <= i < |q| ==> p[i] == q[i];
    }
    assert Distinct(p) by {
      forall i, j | 0 <= i < j < |p| ensures p[i] != p[j] {
        assert depth[p[i]] == i && depth[p[j]] == j;
      }
    }
  }

  /** One step of the reconstruction loop: the predecessor is the sentinel
      or a shallower key, and the path to `c` is the path to it plus `c`. */
  lemma TraceStep(m: Maze, bt: map<Cell, Cell>, depth: map<Cell, nat>, c: Cell)
    requires Valid(m) && Tree(m, bt, depth) && c in bt
    ensures bt[c] == Sentinel || (bt[c] in bt && depth[bt[c]] < depth[c])
    ensures Trace(m, bt, depth, c)
      == (if bt[c] == Sentinel then [] else Trace(m, bt, depth, bt[c])) + [c]
  {
  }

  /** What is left to collect of the path to `goal` when the
      reconstruction loop stands at `c` (the sentinel once it is done). */
  ghost function Remaining(m: Maze, bt: map<Cell, Cell>, depth: map<Cell, nat>, c: Cell): seq<Cell>
    requires Valid(m) && Tree(m, bt, depth) && (c == Sentinel || c in bt)
  {
    if c == Sentinel then [] else Trace(m, bt, depth, c)
  }

  /** One iteration of the reconstruction loop keeps the path to `goal`
      equal to what is left plus the reverse of what has been collected. */
  lemma ReconstructStep(m: Maze, bt: map<Cell, Cell>, depth: map<Cell, nat>, goal: Cell,
                        c: Cell, collected: seq<Cell>)
    requires Valid(m) && Tree(m, bt, depth) && goal in bt && c in bt
    requires Trace(m, bt, depth, goal) == Remaining(m, bt, depth, c) + Reverse(collected)
    ensures bt[c] == Sentinel || (bt[c] in bt && depth[bt[c]] < depth[c])
    ensures Trace(m, bt, depth, goal) == Remaining(m, bt, depth, bt[c]) + Reverse(collected + [c])
  {
    TraceStep(m, bt, depth, c);
    ReverseSnoc(collected, c);
    var earlier := Remaining(m, bt, depth, bt[c]);
    assert earlier + [c] + Reverse(collected) == earlier + Reverse(collected + [c]);
  }

  /** Every discovered cell is reachable. */
  lemma KeysReachable(m: Maze, bt: map<Cell, Cell>, depth: map<Cell, nat>)
    requires Valid(m) && Tree(m, bt, depth)
    ensures bt.Keys <= Reachable(m)
  {
    forall c | c in bt ensures c in Reachable(m) {
      TraceFacts(m, bt, depth, c);
      WalkEndReachable(m, Trace(m, bt, depth, c));
    }
  }

  /** A walk from the start never leaves a set that holds the start and is
      closed under neighbours. */
  lemma {:induction false} WalkStaysIn(m: Maze, w: seq<Cell>, S: set<Cell>, k: nat)
    requires IsWalk(m, w) && k < |w|
    requires m.start in S
    requires forall p :: p in S ==> forall n :: n in m.neighbors(p) ==> n in S
    ensures w[k] in S
  {
    if k > 0 {
      WalkStaysIn(m, w, S, k - 1);
    }
  }

  // ---------------------------------------------------------------------
  // What bfs and dfs return

  /** If the start is an objective, the loop breaks on its first test: the
      path is the start alone and one cell was discovered. */
  lemma StartIsObjective(m: Maze, d: Discipline)
    requires Valid(m) && m.isObjective(m.start)
    ensures Answer(m, d) == Outcome([m.start], 1)
  {
    assert Run(m, d, Init(m)) == Init(m);
  }

  /** The path is a repetition-free walk from the start to the cell the loop
      stopped at; it is no longer than the count, which is at least one and
      at most the number of reachable cells. */
  lemma PathShape(m: Maze, d: Discipline)
    requires Valid(m)
    ensures var a := Answer(m, d);
      && IsWalk(m, a.path)
      && a.path[|a.path| - 1] == ExitState(m, d).current
      && Distinct(a.path)
      && |a.path| <= a.explored
      && 1 <= a.explored <= |Reachable(m)|
  {
    var s := ExitState(m, d);
    var a := Answer(m, d);
    TraceFacts(m, s.backtrack, s.depth, s.current);
    DistinctWithin(a.path, s.backtrack.Keys);
    KeysReachable(m, s.backtrack, s.depth);
    SubsetCard(s.backtrack.Keys, Reachable(m));
  }

  /** The path ends at an objective exactly when some objective is
      reachable; when none is, the loop has discovered every reachable cell
      and the path ends at the cell popped last. */
  lemma ObjectiveReached(m: Maze, d: Discipline)
    requires Valid(m)
    ensures var a := Answer(m, d);
      && (m.isObjective(a.path[|a.path| - 1]) <==> exists c :: c in Reachable(m) && m.isObjective(c))
      && (!m.isObjective(a.path[|a.path| - 1]) ==>
            a.explored == |Reachable(m)| && ExitState(m, d).current in Popped(ExitState(m, d)))
  {
    var s := ExitState(m, d);
    TraceFacts(m, s.backtrack, s.depth, s.current);
    KeysReachable(m, s.backtrack, s.depth);
    if !m.isObjective(s.current) {
      Exhausted(m, d, s);
    }
  }

  /** A loop that stops without `current` being an objective has emptied
      its frontier: every reachable cell is discovered and expanded, and
      none is an objective. */
  lemma Exhausted(m: Maze, d: Discipline, s: State)
    requires Inv(m, d, s) && |s.frontier| == 0 && !m.isObjective(s.current)
    ensures s.backtrack.Keys == Reachable(m) && s.current in Popped(s)
    ensures forall c :: c in Reachable(m) ==> !m.isObjective(c)
  {
    assert Elems(s.frontier) == {};
    assert Popped(s) == s.backtrack.Keys;
    KeysReachable(m, s.backtrack, s.depth);
    forall c | c in Reachable(m) ensures c in s.backtrack && !m.isObjective(c) {
      var w :| IsWalk(m, w) && w[|w| - 1] == c;
      WalkStaysIn(m, w, s.backtrack.Keys, |w| - 1);
    }
  }

  /** Breadth-first only: when the path ends at an objective, no walk from
      the start to any objective has fewer cells. */
  lemma BfsShortest(m: Maze)
    requires Valid(m)
    ensures var a := Answer(m, Fifo);
      m.isObjective(a.path[|a.path| - 1]) ==>
        forall w :: IsWalk(m, w) && m.isObjective(w[|w| - 1]) ==> |a.path| <= |w|
  {
    var s := ExitState(m, Fifo);
    var a := Answer(m, Fifo);
    TraceFacts(m, s.backtrack, s.depth, s.current);
    if m.isObjective(s.current) {
      forall w | IsWalk(m, w) && m.isObjective(w[|w| - 1]) ensures |a.path| <= |w| {
        LayeredBound(m, s, w, 0);
      }
    }
  }

  /** Along a walk whose first `i` cells are all popped, the `i`-th cell is
      discovered at depth at most `i`. */
  lemma {:induction false} PoppedPrefix(m: Maze, s: State, w: seq<Cell>, i: nat)
    requires Inv(m, Fifo, s) && IsWalk(m, w) && i < |w|
    requires forall k :: 0 <= k < i ==> w[k] in Popped(s)
    ensures w[i] in s.backtrack && s.depth[w[i]] <= i
  {
    if i > 0 {
      PoppedPrefix(m, s, w, i - 1);
      assert w[i] in m.neighbors(w[i - 1]);
    }
  }

  /** The first cell of a walk that is not popped lies on the frontier, and
      so no shallower than `current`; if every cell is popped, the objective
      the walk ends at is `current` itself. */
  lemma {:induction false} LayeredBound(m: Maze, s: State, w: seq<Cell>, i: nat)
    requires Inv(m, Fifo, s) && IsWalk(m, w) && i < |w| && m.isObjective(w[|w| - 1])
    requires forall k :: 0 <= k < i ==> w[k] in Popped(s)
    ensures s.depth[s.current] + 1 <= |w|
    decreases |w| - i
  {
    PoppedPrefix(m, s, w, i);
    if w[i] !in Popped(s) {
      assert w[i] in Elems(s.frontier);
      var k :| 0 <= k < |s.frontier| && s.frontier[k] == w[i];
    } else if i == |w| - 1 {
      assert w[i] == s.current;
    } else {
      LayeredBound(m, s, w, i + 1);
    }
  }

  /** The loop never overwrites a backtrack entry. */
  lemma {:induction false} RunExtends(m: Maze, d: Discipline, s: State)
    requires Inv(m, d, s)
    ensures forall c :: c in s.backtrack ==>
      c in Run(m, d, s).backtrack && Run(m, d, s).backtrack[c] == s.backtrack[c]
    decreases Measure(m, s)
  {
    if |s.frontier| != 0 && !m.isObjective(s.current) {
      StepWellFormed(m, d, s);
      StepTree(m, d, s);
      StepInv(m, d, s);
      RunExtends(m, d, Step(m, d, s));
    }
  }

  /** Each iteration pops a cell not popped before, so the loop runs at most
      as many popping iterations as it discovers cells. */
  lemma {:induction false} IterationsPop(m: Maze, d: Discipline, s: State)
    requires Inv(m, d, s)
    ensures |Popped(Run(m, d, s))| == |Popped(s)| + Iterations(m, d, s)
    decreases Measure(m, s)
  {
    if |s.frontier| != 0 && !m.isObjective(s.current) {
      StepWellFormed(m, d, s);
      StepPopped(m, d, s);
      StepInv(m, d, s);
      IterationsPop(m, d, Step(m, d, s));
    }
  }

  lemma IterationsBound(m: Maze, d: Discipline)
    requires Valid(m)
    ensures Iterations(m, d, Init(m)) <= Answer(m, d).explored
  {
    var s := ExitState(m, d);
    InitInv(m, d);
    IterationsPop(m, d, Init(m));
    assert Popped(Init(m)) == {} by {
      assert Elems(Init(m).frontier) == {m.start};
    }
    SubsetCard(Popped(s), s.backtrack.Keys);
  }

  /** When the start is not an objective, the cell the path ends at has been
      popped and expanded, so all its neighbours are in the count. */
  lemma LastExpanded(m: Maze, d: Discipline)
    requires Valid(m) && !m.isObjective(m.start)
    ensures var s := ExitState(m, d);
      s.current in Popped(s) && forall n :: n in m.neighbors(s.current) ==> n in s.backtrack
  {
  }
}
