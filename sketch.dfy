/**
 * The grid-search engine of the path-finding sketch: a grid of cells with
 * walls, a start and an end; three searches (breadth-first, depth-first and
 * an A*-like best-first search) that each expand one cell per call; and the
 * walk back along `parent` links that marks the path found, one cell per call.
 *
 * The sketch keeps all of this in global variables; here they are the fields
 * of one `Engine` object. The cells are objects updated in place; here a
 * cell is named by its `Coord` and each of the cells' fields is one field of
 * the engine: a boolean field is the set of cells where it is true, `parent`
 * and `parentCell` are maps defined where the link is set, and `score` maps
 * every cell to its score. A `parent` link, a frontier entry or `currentLast`
 * is a `Coord`.
 */
module Sketch {
  import opened Wrappers
  import opened Geometry
  import opened JsCollections

  /** Initial `min` of getLowestScoreCell: a cell is only chosen when its score is below it. */
  const ScoreCeiling := 10000000

  /** What one call of a search step did. */
  datatype StepOutcome =
      /** a cell was taken from the frontier and handled */
    | Expanded(current: Coord)
      /** the frontier was empty: the step calls `noLoop()`, then fails on the
          missing `current` before anything changes */
    | FrontierEmpty
      /** A* only: the set is not empty but no score is below `ScoreCeiling`,
          so no cell is chosen and the step fails before anything changes */
    | NoCandidate

  /**
   * Grid sizes for which resetToEmpty only touches existing cells: the wall
   * rows need column 24 and rows 2 and `rows - 3`, and once the wall column
   * loop runs (`rows >= 5`) it needs column 25.
   */
  predicate LayoutFits(cols: int, rows: int) {
    25 <= cols && 3 <= rows && (5 <= rows ==> 26 <= cols)
  }

  /** `Math.round(nbRows / 2)`: a half rounds up. */
  function Middle(rows: nat): (m: nat)
    ensures rows <= 2 * m <= rows + 1
  {
    (rows + 1) / 2
  }

  function StartCell(rows: nat): Coord {
    Coord(7, Middle(rows))
  }

  function EndCell(cols: nat, rows: nat): Coord {
    Coord(cols - 5, Middle(rows))
  }

  /** The walls resetToEmpty lays: column 25 from row 2 to row `rows - 3`, and
      rows 2 and `rows - 3` from column 15 to column 24. */
  predicate LayoutWall(rows: int, c: Coord) {
    (c.i == 25 && 2 <= c.j < rows - 2) ||
    (15 <= c.i < 25 && (c.j == 2 || c.j == rows - 3))
  }

  /**
   * Where resetToEmpty puts the start and the end: on the grid, on different
   * cells, and the start never on a wall.
   */
  lemma LayoutCells(cols: nat, rows: nat)
    requires LayoutFits(cols, rows)
    ensures StartCell(rows) != EndCell(cols, rows)
    ensures 0 <= StartCell(rows).i < cols && 0 <= StartCell(rows).j < rows
    ensures 0 <= EndCell(cols, rows).i < cols && 0 <= EndCell(cols, rows).j < rows
    ensures !LayoutWall(rows, StartCell(rows))
  {
  }

  /** On the sketch's own 40 by 40 grid the start is Coord(7, 20), the end Coord(35, 20), and neither is a wall. */
  lemma SketchGridLayout()
    ensures LayoutFits(40, 40)
    ensures StartCell(40) == Coord(7, 20) && EndCell(40, 40) == Coord(35, 20)
    ensures !LayoutWall(40, Coord(7, 20)) && !LayoutWall(40, Coord(35, 20))
  {
  }

  /**
   * testSetContains: a linear scan up to `testSet.length`. For an array this
   * is a membership test; a `Set` has no `length`, `i < undefined` is false,
   * and the scan never starts.
   */
  method TestSetContains(testSet: Collection<Coord>, cell: Coord) returns (contains: bool)
    ensures contains <==> testSet.JsArray? && cell in testSet.items
  {
    // the `length` property: an array has one; on a `Set` it is `undefined`
    var size: Option<nat> := if testSet.JsArray? then Some(|testSet.items|) else None;
    var i := 0;
    // `i < size` is false when `size` is undefined
    while size.Some? && i < size.value
      invariant size.Some? ==> testSet.JsArray? && 0 <= i <= size.value == |testSet.items|
      invariant testSet.JsArray? ==> cell !in testSet.items[..i]
    {
      if testSet.items[i] == cell {
        return true;
      }
      i := i + 1;
    }
    assert testSet.JsArray? ==> testSet.items[..i] == testSet.items;
    return false;
  }

  /** The cells of a sequence, as a set. */
  function Elems(ns: seq<Coord>): set<Coord>
    decreases |ns|
  {
    if ns == [] then {} else Elems(ns[..|ns| - 1]) + {ns[|ns| - 1]}
  }

  /** The `parent` links a search step writes: every cell of `ns` pointing at `p`. */
  function Links(ns: seq<Coord>, p: Coord): map<Coord, Coord>
    decreases |ns|
  {
    if ns == [] then map[] else Links(ns[..|ns| - 1], p)[ns[|ns| - 1] := p]
  }

  /** The scores a search step writes: every cell of `ns` scored from `s`, the score of its new parent. */
  function Rescored(ns: seq<Coord>, s: int, nextScore: (Coord, int) -> int): map<Coord, int>
    decreases |ns|
  {
    if ns == [] then map[] else Rescored(ns[..|ns| - 1], s, nextScore)[ns[|ns| - 1] := nextScore(ns[|ns| - 1], s)]
  }

  /** `Elems(ns)` holds exactly the cells of `ns`. */
  lemma {:induction false} ElemsMembers(ns: seq<Coord>)
    ensures forall n :: n in Elems(ns) <==> n in ns
    decreases |ns|
  {
    if ns != [] {
      ElemsMembers(ns[..|ns| - 1]);
      assert ns == ns[..|ns| - 1] + [ns[|ns| - 1]];
    }
  }

  /** `Links(ns, p)` links exactly the cells of `ns`, each to `p`. */
  lemma {:induction false} LinksMembers(ns: seq<Coord>, p: Coord)
    ensures forall n :: n in Links(ns, p) <==> n in ns
    ensures forall n :: n in Links(ns, p) ==> Links(ns, p)[n] == p
    decreases |ns|
  {
    if ns != [] {
      LinksMembers(ns[..|ns| - 1], p);
      assert ns == ns[..|ns| - 1] + [ns[|ns| - 1]];
    }
  }

  /** `Rescored(ns, s, nextScore)` scores exactly the cells of `ns`, each with `nextScore(n, s)`. */
  lemma {:induction false} RescoredMembers(ns: seq<Coord>, s: int, nextScore: (Coord, int) -> int)
    ensures forall n :: n in Rescored(ns, s, nextScore) <==> n in ns
    ensures forall n :: n in Rescored(ns, s, nextScore) ==> Rescored(ns, s, nextScore)[n] == nextScore(n, s)
    decreases |ns|
  {
    if ns != [] {
      RescoredMembers(ns[..|ns| - 1], s, nextScore);
      assert ns == ns[..|ns| - 1] + [ns[|ns| - 1]];
    }
  }

  /** Taking one more cell of `ns` adds it to the cells collected so far. */
  lemma GrowElems(base: set<Coord>, ns: seq<Coord>, k: int)
    requires 0 <= k < |ns|
    ensures base + Elems(ns[..k + 1]) == (base + Elems(ns[..k])) + {ns[k]}
  {
    assert ns[..k + 1] == ns[..k] + [ns[k]];
  }

  /** Taking one more cell of `ns` adds its link to the links written so far. */
  lemma GrowLinks(base: map<Coord, Coord>, ns: seq<Coord>, k: int, p: Coord)
    requires 0 <= k < |ns|
    ensures base + Links(ns[..k + 1], p) == (base + Links(ns[..k], p))[ns[k] := p]
  {
    assert ns[..k + 1] == ns[..k] + [ns[k]];
  }

  /** Taking one more cell of `ns` adds its score to the scores written so far. */
  lemma GrowScores(base: map<Coord, int>, ns: seq<Coord>, k: int, s: int, nextScore: (Coord, int) -> int)
    requires 0 <= k < |ns|
    ensures base + Rescored(ns[..k + 1], s, nextScore) == (base + Rescored(ns[..k], s, nextScore))[ns[k] := nextScore(ns[k], s)]
  {
    assert ns[..k + 1] == ns[..k] + [ns[k]];
  }

  class Engine {
    const cols: nat
    const rows: nat

    /** The boolean fields of the cells: the cells where the flag is true. */
    var isStart: set<Coord>
    var isEnd: set<Coord>
    var isWall: set<Coord>
    var visited: set<Coord>
    var partOfPath: set<Coord>
    /** What the cell constructor stores from its third argument; it is always null, so never set. */
    var parentCell: map<Coord, Coord>
    /** The link the searches write and showPath follows; undefined where absent. */
    var parent: map<Coord, Coord>
    var score: map<Coord, int>

    var start: Coord
    var end: Coord
    var currentLast: Option<Coord>
    var bfsQueue: seq<Coord>
    var dfsStack: seq<Coord>
    /** the JS `Set` of A*, in insertion order */
    var astarSet: seq<Coord>

    var launchBfs: bool
    var launchDfs: bool
    var launchAstar: bool
    var done: bool

    /** When each visited cell was first marked visited, and the next time stamp. */
    ghost var stamp: map<Coord, nat>
    ghost var clock: nat

    predicate InBounds(c: Coord) {
      0 <= c.i < cols && 0 <= c.j < rows
    }

    /** Every cell of the grid has a score. */
    ghost predicate Scored()
      reads this`score
    {
      forall c :: InBounds(c) ==> c in score
    }

    /** `cell.parent`, `None` while it is undefined. */
    function Parent(c: Coord): Option<Coord>
      reads this`parent
    {
      if c in parent then Some(parent[c]) else None
    }

    /** A cell getNeighbours may return: on the grid, not a wall, not visited. */
    predicate Open(c: Coord)
      reads this`isWall, this`visited
    {
      InBounds(c) && c !in isWall && c !in visited
    }

    /** Cell `c` is as `new Cell(i, j, null)` builds it. */
    ghost predicate FreshAt(c: Coord)
      reads this`isStart, this`isEnd, this`isWall, this`visited, this`partOfPath
      reads this`parentCell, this`parent, this`score
    {
      && c !in isStart && c !in isEnd && c !in isWall && c !in visited && c !in partOfPath
      && c !in parentCell && c !in parent && c in score && score[c] == 0
    }

    /** Cell `c` as resetToEmpty leaves it: fresh, except for the start, the end and the walls. */
    ghost predicate LaidOutAt(c: Coord)
      reads this`isStart, this`isEnd, this`isWall, this`visited, this`partOfPath
      reads this`parentCell, this`parent, this`score
    {
      && (c in isStart <==> c == StartCell(rows))
      && (c in isEnd <==> c == EndCell(cols, rows))
      && (c in isWall <==> LayoutWall(rows, c))
      && c !in visited && c !in partOfPath
      && c !in parentCell && c !in parent && c in score && score[c] == 0
    }

    /** A visited cell's time stamp; every unvisited cell ranks above all visited ones. */
    ghost function Rank(c: Coord): nat
      reads this`stamp, this`clock
    {
      if c in stamp then stamp[c] else clock
    }

    /**
     * What the search invariant says of one cell: it carries a time stamp
     * exactly when it is visited, and its parent (if any) is a cell of the
     * grid next to it that was visited, and before it if it was visited too.
     */
    ghost predicate CellOk(c: Coord)
      reads this`stamp, this`visited, this`parent
    {
      && (c in visited <==> c in stamp)
      && (c in parent ==>
            var p := parent[c];
            InBounds(p) && Adjacent(p, c) && p in stamp && (c in stamp ==> stamp[p] < stamp[c]))
    }

    /**
     * The grid-wide invariant: every cell satisfies `CellOk`, so the parent
     * links have no cycle, and every time stamp handed out is below the clock.
     */
    ghost predicate Consistent()
      reads this`stamp, this`clock, this`visited, this`parent
    {
      && (forall c :: c in stamp ==> stamp[c] < clock)
      && (forall c {:trigger CellOk(c)} :: InBounds(c) ==> CellOk(c))
    }

    /**
     * The breadth-first queue holds cells of the grid, no cell twice, and all
     * but its head are visited.
     */
    ghost predicate BfsQueueOk()
      reads this`bfsQueue, this`visited
    {
      && (forall k :: 0 <= k < |bfsQueue| ==> InBounds(bfsQueue[k]))
      && Distinct(bfsQueue)
      && (forall k :: 1 <= k < |bfsQueue| ==> bfsQueue[k] in visited)
    }

    /** Every cell on the depth-first stack is on the grid. */
    ghost predicate DfsStackOk()
      reads this`dfsStack
    {
      forall k :: 0 <= k < |dfsStack| ==> InBounds(dfsStack[k])
    }

    /** The A* open set holds cells of the grid, no cell twice. */
    ghost predicate AstarSetOk()
      reads this`astarSet
    {
      && (forall c :: c in astarSet ==> InBounds(c))
      && Distinct(astarSet)
    }

    /** Every visited cell of the grid is the start or has been given a parent. */
    ghost predicate Rooted()
      reads this`visited, this`parent, this`start
    {
      forall c :: c in visited && InBounds(c) ==> c == start || c in parent
    }

    /** Every cell of a frontier is the start or has been given a parent. */
    ghost predicate FrontierRooted(s: seq<Coord>)
      reads this`parent, this`start
    {
      forall c :: c in s ==> c == start || c in parent
    }

    /**
     * The invariant kept between frames: the grid fits the layout and every
     * cell has a score; the start, the end and the path cursor are on the
     * grid; the grid is `Consistent` and `Rooted`; once `done` is set the end
     * has been visited; and each launched search has a well-formed frontier
     * whose cells are the start or have a parent.
     */
    ghost predicate Valid()
      reads this
    {
      && LayoutFits(cols, rows)
      && Scored()
      && InBounds(start) && InBounds(end)
      && (currentLast.Some? ==> InBounds(currentLast.value))
      && Consistent()
      && Rooted()
      && (done ==> end in visited)
      && (launchBfs ==> BfsQueueOk() && FrontierRooted(bfsQueue))
      && (launchDfs ==> DfsStackOk() && FrontierRooted(dfsStack))
      && (launchAstar ==> AstarSetOk() && FrontierRooted(astarSet))
    }

    /**
     * setup(): the grid starts empty, then resetToEmpty lays it out. The
     * frontiers are `undefined` in the sketch until their button is clicked;
     * here they start empty, which no step can observe, since a step needs
     * its launch flag and only the click handler sets it.
     */
    constructor (cols: nat, rows: nat)
      requires LayoutFits(cols, rows)
      ensures Valid() && this.cols == cols && this.rows == rows
      ensures forall c :: InBounds(c) ==> LaidOutAt(c)
      ensures start == StartCell(rows) && end == EndCell(cols, rows) && currentLast == Some(end)
      ensures bfsQueue == [] && dfsStack == [] && astarSet == []
      ensures !launchBfs && !launchDfs && !launchAstar && !done
    {
      this.cols := cols;
      this.rows := rows;
      isStart, isEnd, isWall, visited, partOfPath := {}, {}, {}, {}, {};
      parentCell, parent, score := map[], map[], map[];
      start, end, currentLast := Coord(0, 0), Coord(0, 0), None;
      bfsQueue, dfsStack, astarSet := [], [], [];
      launchBfs, launchDfs, launchAstar, done := false, false, false, false;
      stamp, clock := map[], 0;
      new;
      ResetToEmpty();
    }

    method SetAsStart(c: Coord)
      modifies this`isStart
      ensures isStart == old(isStart) + {c}
    {
      isStart := isStart + {c};
    }

    method SetAsEnd(c: Coord)
      modifies this`isEnd
      ensures isEnd == old(isEnd) + {c}
    {
      isEnd := isEnd + {c};
    }

    method SetAsWall(c: Coord)
      modifies this`isWall
      ensures isWall == old(isWall) + {c}
    {
      isWall := isWall + {c};
    }

    /**
     * resetToEmpty: fresh cells everywhere, the start and the end in the middle
     * row, the walls, all run flags cleared. The frontiers are not in the
     * frame, so they are left as they are.
     */
    method ResetToEmpty()
      requires LayoutFits(cols, rows)
      modifies this`isStart, this`isEnd, this`isWall, this`visited, this`partOfPath
      modifies this`parentCell, this`parent, this`score, this`start, this`end, this`currentLast
      modifies this`launchBfs, this`launchDfs, this`launchAstar, this`done, this`stamp, this`clock
      ensures Valid()
      ensures forall c :: InBounds(c) ==> LaidOutAt(c)
      ensures start == StartCell(rows) && end == EndCell(cols, rows) && currentLast == Some(end)
      ensures !launchBfs && !launchDfs && !launchAstar && !done
    {
      LayOut();
      launchBfs, launchDfs, launchAstar, done := false, false, false, false;
      stamp, clock := map[], 0;
      LaidOutIsValid();
    }

    /** A grid as resetToEmpty lays it out, with no visit stamped yet and no search launched, is `Valid`. */
    lemma LaidOutIsValid()
      requires forall c :: InBounds(c) ==> LaidOutAt(c)
      requires stamp == map[] && LayoutFits(cols, rows) && InBounds(start) && InBounds(end)
      requires currentLast.Some? ==> InBounds(currentLast.value)
      requires !launchBfs && !launchDfs && !launchAstar && !done
      ensures Valid()
    {
    }

    /** The grid part of resetToEmpty: fresh cells, the start, the end and the walls. */
    method LayOut()
      requires LayoutFits(cols, rows)
      modifies this`isStart, this`isEnd, this`isWall, this`visited, this`partOfPath
      modifies this`parentCell, this`parent, this`score
      modifies this`start, this`end, this`currentLast
      ensures InBounds(start) && InBounds(end)
      ensures forall c :: InBounds(c) ==> LaidOutAt(c)
      ensures start == StartCell(rows) && end == EndCell(cols, rows) && currentLast == Some(end)
    {
      CreateCells();
      label Created:
      LayoutCells(cols, rows);
      var middle := Middle(rows);
      SetAsStart(Coord(7, middle));
      start := Coord(7, middle);
      SetAsEnd(Coord(cols - 5, middle));
      end := Coord(cols - 5, middle);
      currentLast := Some(end);
      LayWalls();
      forall c | InBounds(c) ensures LaidOutAt(c) {
        assert old@Created(FreshAt(c));
      }
    }

    /** The nested loops of resetToEmpty: `grid[i][j] = new Cell(i, j, null)` everywhere. */
    method CreateCells()
      modifies this`isStart, this`isEnd, this`isWall, this`visited, this`partOfPath
      modifies this`parentCell, this`parent, this`score
      ensures forall c :: InBounds(c) ==> FreshAt(c)
    {
      var i := 0;
      while i < cols
        invariant 0 <= i <= cols
        invariant forall c :: InBounds(c) && c.i < i ==> FreshAt(c)
      {
        var j := 0;
        while j < rows
          invariant 0 <= j <= rows
          invariant forall c :: InBounds(c) && (c.i < i || (c.i == i && c.j < j)) ==> FreshAt(c)
        {
          NewCell(Coord(i, j));
          j := j + 1;
        }
        i := i + 1;
      }
    }

    /** `new Cell(i, j, null)` stored at `grid[i][j]`: every field of cell `c` reset, the other cells untouched. */
    method NewCell(c: Coord)
      modifies this`isStart, this`isEnd, this`isWall, this`visited, this`partOfPath
      modifies this`parentCell, this`parent, this`score
      ensures FreshAt(c)
      ensures isStart == old(isStart) - {c} && isEnd == old(isEnd) - {c} && isWall == old(isWall) - {c}
      ensures visited == old(visited) - {c} && partOfPath == old(partOfPath) - {c}
      ensures parentCell == old(parentCell) - {c} && parent == old(parent) - {c} && score == old(score)[c := 0]
      ensures forall d :: d != c && old(FreshAt(d)) ==> FreshAt(d)
    {
      isStart, isEnd, isWall := isStart - {c}, isEnd - {c}, isWall - {c};
      visited, partOfPath := visited - {c}, partOfPath - {c};
      parentCell, parent, score := parentCell - {c}, parent - {c}, score[c := 0];
    }

    /** The two wall loops of resetToEmpty. */
    method LayWalls()
      requires LayoutFits(cols, rows)
      modifies this`isWall
      ensures forall c :: InBounds(c) ==> (c in isWall <==> c in old(isWall) || LayoutWall(rows, c))
    {
      var k := 2;
      while k < rows - 2
        invariant 2 <= k <= if rows < 4 then 2 else rows - 2
        invariant forall c :: InBounds(c) ==> (c in isWall <==> c in old(isWall) || (c.i == 25 && 2 <= c.j < k))
      {
        SetAsWall(Coord(25, k));
        k := k + 1;
      }
      k := 15;
      while k < 25
        invariant 15 <= k <= 25
        invariant forall c :: InBounds(c) ==>
          (c in isWall <==> c in old(isWall) || (c.i == 25 && 2 <= c.j < rows - 2) ||
                            (15 <= c.i < k && (c.j == 2 || c.j == rows - 3)))
      {
        SetAsWall(Coord(k, 2));
        SetAsWall(Coord(k, rows - 3));
        k := k + 1;
      }
    }

    /** The click handler of the BFS button: a new queue holding the start. */
    method LaunchBfs()
      requires Valid()
      modifies this`bfsQueue, this`launchBfs
      ensures Valid() && bfsQueue == [start] && launchBfs
    {
      bfsQueue := [start];
      launchBfs := true;
    }

    /** The click handler of the DFS button: a new stack holding the start. */
    method LaunchDfs()
      requires Valid()
      modifies this`dfsStack, this`launchDfs
      ensures Valid() && dfsStack == [start] && launchDfs
    {
      dfsStack := [start];
      launchDfs := true;
    }

    /** The click handler of the A* button: a new `Set` holding the start. */
    method LaunchAstar()
      requires Valid()
      modifies this`astarSet, this`launchAstar
      ensures Valid() && astarSet == [start] && launchAstar
    {
      astarSet := [start];
      launchAstar := true;
    }

    /**
     * getNeighbours: the orthogonal neighbours of `c` that are on the grid, not
     * walls and not visited, in the order up, down, left, right.
     */
    function GetNeighbours(c: Coord): (ns: seq<Coord>)
      reads this`isWall, this`visited
      requires InBounds(c)
      ensures |ns| <= 4
      ensures forall n :: n in ns ==> Adjacent(c, n) && Open(n)
      ensures forall n :: Adjacent(c, n) && Open(n) ==> n in ns
      ensures InDirectionOrder(c, ns)
    {
      var up := c.j != 0 && Up(c) !in isWall && Up(c) !in visited;
      var down := c.j != rows - 1 && Down(c) !in isWall && Down(c) !in visited;
      var left := c.i != 0 && Left(c) !in isWall && Left(c) !in visited;
      var right := c.i != cols - 1 && Right(c) !in isWall && Right(c) !in visited;
      assert up == Open(Up(c)) && down == Open(Down(c)) && left == Open(Left(c)) && right == Open(Right(c));
      Kept(c, up, down, left, right)
    }

    /** Marking `c` visited does not change which cells are its open neighbours. */
    twostate lemma NeighboursFramed(c: Coord)
      requires InBounds(c)
      requires isWall == old(isWall) && visited == old(visited) + {c}
      ensures GetNeighbours(c) == old(GetNeighbours(c))
    {
    }

    /**
     * What a breadth-first step did once it took `current` off the queue,
     * leaving `rest`: the open neighbours `ns` are appended to `rest`; the
     * run stops and `done` is set exactly when `current` is the end;
     * `current` and `ns` become visited; each cell of `ns` gets `current` as
     * parent.
     */
    twostate predicate BfsDid(current: Coord, ns: seq<Coord>, rest: seq<Coord>)
      reads this
    {
      && bfsQueue == rest + ns
      && launchBfs == (current != end)
      && done == (old(done) || current == end)
      && visited == old(visited) + {current} + Elems(ns)
      && parent == old(parent) + Links(ns, current)
    }

    /**
     * bfsAlgorithm: take the head of the queue; if it is the end, stop the run
     * and signal `done`; mark it visited; then mark each neighbour visited, give
     * it `current` as parent and append it to the queue. On an empty queue the
     * step fails on the missing `current` and nothing changes.
     */
    method BfsStep() returns (outcome: StepOutcome)
      requires Valid() && launchBfs
      modifies this`bfsQueue, this`launchBfs, this`done, this`stamp, this`clock, this`visited, this`parent
      ensures Valid() && BfsQueueOk()
      ensures old(bfsQueue) == [] ==> outcome == FrontierEmpty && unchanged(this)
      ensures old(bfsQueue) != [] ==>
        var current := old(bfsQueue)[0];
        && outcome == Expanded(current)
        && BfsDid(current, old(GetNeighbours(current)), old(bfsQueue)[1..])
    {
      if |bfsQueue| == 0 {
        return FrontierEmpty;
      }
      var current := BfsTake();
      outcome := Expanded(current);
    }

    /** bfsAlgorithm on a non-empty queue. */
    method BfsTake() returns (current: Coord)
      requires Valid() && launchBfs && bfsQueue != []
      modifies this`bfsQueue, this`launchBfs, this`done, this`stamp, this`clock, this`visited, this`parent
      ensures Valid() && BfsQueueOk()
      ensures current == old(bfsQueue)[0]
      ensures BfsDid(current, old(GetNeighbours(current)), old(bfsQueue)[1..])
    {
      current := BfsRun();
      BfsKeepsValid();
    }

    /** The shift and what bfsAlgorithm does with the shifted cell, on the queue and the cells alone. */
    method BfsRun() returns (current: Coord)
      requires Consistent() && BfsQueueOk() && launchBfs && bfsQueue != []
      modifies this`bfsQueue, this`launchBfs, this`done, this`stamp, this`clock, this`visited, this`parent
      ensures Consistent() && BfsQueueOk()
      ensures current == old(bfsQueue)[0]
      ensures BfsDid(current, old(GetNeighbours(current)), old(bfsQueue)[1..])
    {
      ghost var ns := GetNeighbours(bfsQueue[0]);
      current := BfsShift();
      BfsHandle(current, ns);
    }

    /** `bfsQueue.shift()`: the head comes off; it was the only cell of the queue that may be unvisited. */
    method BfsShift() returns (head: Coord)
      requires BfsQueueOk() && bfsQueue != []
      modifies this`bfsQueue
      ensures head == old(bfsQueue)[0] && bfsQueue == old(bfsQueue)[1..]
      ensures BfsQueueOk() && InBounds(head) && head !in bfsQueue
      ensures bfsQueue != [] ==> bfsQueue[0] in visited
    {
      head := bfsQueue[0];
      bfsQueue := bfsQueue[1..];
      forall k | 1 <= k < |bfsQueue| ensures bfsQueue[k] in visited {
        assert bfsQueue[k] == old(bfsQueue)[k + 1];
      }
    }

    /** What bfsAlgorithm does with the shifted cell: the end test, then the expansion. */
    method BfsHandle(current: Coord, ghost ns: seq<Coord>)
      requires Consistent() && BfsQueueOk() && InBounds(current) && launchBfs
      requires current !in bfsQueue && (bfsQueue != [] ==> bfsQueue[0] in visited)
      requires ns == GetNeighbours(current)
      modifies this`bfsQueue, this`launchBfs, this`done, this`stamp, this`clock, this`visited, this`parent
      ensures Consistent() && BfsQueueOk()
      ensures BfsDid(current, ns, old(bfsQueue))
    {
      if current == end {
        launchBfs, done := false, true;
      }
      BfsExpand(current, ns);
    }

    /** The expansion of bfsAlgorithm: mark `current` visited, then discover its neighbours `ns`. */
    method BfsExpand(current: Coord, ghost ns: seq<Coord>)
      requires Consistent() && BfsQueueOk() && InBounds(current)
      requires current !in bfsQueue && (bfsQueue != [] ==> bfsQueue[0] in visited)
      requires ns == GetNeighbours(current)
      modifies this`bfsQueue, this`stamp, this`clock, this`visited, this`parent
      ensures Consistent() && BfsQueueOk()
      ensures bfsQueue == old(bfsQueue) + ns
      ensures visited == old(visited) + {current} + Elems(ns)
      ensures parent == old(parent) + Links(ns, current)
    {
      Visit(current);
      var neighbours := GetNeighbours(current);
      NeighboursFramed(current);
      DirectionOrderDistinct(current, neighbours);
      DiscoverAll(current, neighbours);
      ElemsMembers(neighbours);
      DistinctConcat(old(bfsQueue), neighbours);
    }

    /** The `forEach` of bfsAlgorithm over the unvisited neighbours of `current`. */
    method DiscoverAll(current: Coord, ns: seq<Coord>)
      requires Consistent() && InBounds(current) && current in visited
      requires Distinct(ns) && forall n :: n in ns ==> InBounds(n) && Adjacent(current, n) && n !in visited
      modifies this`bfsQueue, this`stamp, this`clock, this`visited, this`parent
      ensures Consistent()
      ensures bfsQueue == old(bfsQueue) + ns
      ensures visited == old(visited) + Elems(ns)
      ensures parent == old(parent) + Links(ns, current)
    {
      var k := 0;
      while k < |ns|
        invariant 0 <= k <= |ns|
        invariant Consistent()
        invariant bfsQueue == old(bfsQueue) + ns[..k]
        invariant visited == old(visited) + Elems(ns[..k])
        invariant parent == old(parent) + Links(ns[..k], current)
      {
        var neighbour := ns[k];
        assert neighbour !in ns[..k];
        ElemsMembers(ns[..k]);
        GrowElems(old(visited), ns, k);
        GrowLinks(old(parent), ns, k, current);
        if neighbour !in visited {
          Discover(neighbour, current);
          bfsQueue := bfsQueue + [neighbour];
        }
        k := k + 1;
      }
      assert ns[..k] == ns;
    }

    /**
     * A breadth-first step keeps `Valid()`: the head it takes was the start or
     * had a parent, the cells it discovers get one, and the links already
     * there stay.
     */
    twostate lemma BfsKeepsValid()
      requires old(Valid()) && old(launchBfs) && old(bfsQueue) != []
      requires unchanged(this`score, this`start, this`end, this`currentLast)
      requires unchanged(this`dfsStack, this`astarSet, this`launchDfs, this`launchAstar)
      requires Consistent() && BfsQueueOk()
      requires var current := old(bfsQueue)[0];
        BfsDid(current, old(GetNeighbours(current)), old(bfsQueue)[1..])
      ensures Valid()
    {
      var current := old(bfsQueue)[0];
      var found := old(GetNeighbours(current));
      ElemsMembers(found);
      LinksMembers(found, current);
      assert old(bfsQueue)[0] in old(bfsQueue);
      forall c | c in bfsQueue ensures c == start || c in parent {
        if c !in found {
          assert c in old(bfsQueue)[1..];
        }
      }
    }

    /**
     * What a depth-first step did once it popped `current`, leaving `rest`:
     * the neighbours `ns` it expands are pushed onto `rest`; the run stops and
     * `done` is set exactly when `current` is the end; `current` becomes
     * visited; each cell of `ns` gets `current` as parent, overwriting any
     * earlier one.
     */
    twostate predicate DfsDid(current: Coord, ns: seq<Coord>, rest: seq<Coord>)
      reads this
    {
      && dfsStack == rest + ns
      && launchDfs == (current != end)
      && done == (old(done) || current == end)
      && visited == old(visited) + {current}
      && parent == old(parent) + Links(ns, current)
    }

    /**
     * dfsAlgorithm: pop the top of the stack; if it is the end, stop the run
     * and signal `done`; if it was not visited yet, mark it visited and push
     * each neighbour, overwriting the neighbour's parent with `current`. A cell
     * already visited is only popped. On an empty stack nothing changes.
     */
    method DfsStep() returns (outcome: StepOutcome)
      requires Valid() && launchDfs
      modifies this`dfsStack, this`launchDfs, this`done, this`stamp, this`clock, this`visited, this`parent
      ensures Valid()
      ensures old(dfsStack) == [] ==> outcome == FrontierEmpty && unchanged(this)
      ensures old(dfsStack) != [] ==>
        var current := old(dfsStack)[|old(dfsStack)| - 1];
        var ns := if current in old(visited) then [] else old(GetNeighbours(current));
        && outcome == Expanded(current)
        && DfsDid(current, ns, old(dfsStack)[..|old(dfsStack)| - 1])
    {
      if |dfsStack| == 0 {
        return FrontierEmpty;
      }
      var current := DfsTake();
      outcome := Expanded(current);
    }

    /** dfsAlgorithm on a non-empty stack. */
    method DfsTake() returns (current: Coord)
      requires Valid() && launchDfs && dfsStack != []
      modifies this`dfsStack, this`launchDfs, this`done, this`stamp, this`clock, this`visited, this`parent
      ensures Valid()
      ensures current == old(dfsStack)[|old(dfsStack)| - 1]
      ensures var ns := if current in old(visited) then [] else old(GetNeighbours(current));
        DfsDid(current, ns, old(dfsStack)[..|old(dfsStack)| - 1])
    {
      current := DfsRun();
      DfsKeepsValid();
    }

    /** The pop and what dfsAlgorithm does with the popped cell, on the stack and the cells alone. */
    method DfsRun() returns (current: Coord)
      requires Consistent() && DfsStackOk() && launchDfs && dfsStack != []
      modifies this`dfsStack, this`launchDfs, this`done, this`stamp, this`clock, this`visited, this`parent
      ensures Consistent() && DfsStackOk()
      ensures current == old(dfsStack)[|old(dfsStack)| - 1]
      ensures var ns := if current in old(visited) then [] else old(GetNeighbours(current));
        DfsDid(current, ns, old(dfsStack)[..|old(dfsStack)| - 1])
    {
      ghost var top := dfsStack[|dfsStack| - 1];
      ghost var ns := if top in visited then [] else GetNeighbours(top);
      current := DfsPop();
      DfsHandle(current, ns);
    }

    /** `dfsStack.pop()`. */
    method DfsPop() returns (top: Coord)
      requires DfsStackOk() && dfsStack != []
      modifies this`dfsStack
      ensures top == old(dfsStack)[|old(dfsStack)| - 1] && dfsStack == old(dfsStack)[..|old(dfsStack)| - 1]
      ensures DfsStackOk() && InBounds(top)
    {
      top := dfsStack[|dfsStack| - 1];
      dfsStack := dfsStack[..|dfsStack| - 1];
    }

    /** What dfsAlgorithm does with the popped cell: the end test, then the expansion unless it was visited. */
    method DfsHandle(current: Coord, ghost ns: seq<Coord>)
      requires Consistent() && DfsStackOk() && InBounds(current) && launchDfs
      requires ns == if current in visited then [] else GetNeighbours(current)
      modifies this`dfsStack, this`launchDfs, this`done, this`stamp, this`clock, this`visited, this`parent
      ensures Consistent() && DfsStackOk()
      ensures DfsDid(current, ns, old(dfsStack))
    {
      if current == end {
        launchDfs, done := false, true;
      }
      if current !in visited {
        DfsExpand(current, ns);
      } else {
        assert Links(ns, current) == map[];
        assert dfsStack == old(dfsStack) + ns;
      }
    }

    /** The expansion of dfsAlgorithm for a cell not visited yet: mark it visited, then push its neighbours `ns`. */
    method DfsExpand(current: Coord, ghost ns: seq<Coord>)
      requires Consistent() && DfsStackOk() && InBounds(current)
      requires ns == GetNeighbours(current)
      modifies this`dfsStack, this`stamp, this`clock, this`visited, this`parent
      ensures Consistent() && DfsStackOk()
      ensures dfsStack == old(dfsStack) + ns
      ensures visited == old(visited) + {current}
      ensures parent == old(parent) + Links(ns, current)
    {
      Visit(current);
      var neighbours := GetNeighbours(current);
      NeighboursFramed(current);
      PushAll(current, neighbours);
      forall k | 0 <= k < |dfsStack| ensures InBounds(dfsStack[k]) {
        if k >= |old(dfsStack)| { assert dfsStack[k] in neighbours; }
      }
    }

    /** The `forEach` of dfsAlgorithm: each neighbour gets `current` as parent and is pushed. */
    method PushAll(current: Coord, ns: seq<Coord>)
      requires Consistent() && InBounds(current) && current in visited
      requires forall n :: n in ns ==> InBounds(n) && Adjacent(current, n) && n !in visited
      modifies this`dfsStack, this`parent
      ensures Consistent()
      ensures dfsStack == old(dfsStack) + ns
      ensures parent == old(parent) + Links(ns, current)
    {
      var k := 0;
      while k < |ns|
        invariant 0 <= k <= |ns|
        invariant Consistent()
        invariant dfsStack == old(dfsStack) + ns[..k]
        invariant parent == old(parent) + Links(ns[..k], current)
      {
        var neighbour := ns[k];
        GrowLinks(old(parent), ns, k, current);
        SetParent(neighbour, current);
        dfsStack := dfsStack + [neighbour];
        k := k + 1;
      }
      assert ns[..k] == ns;
    }

    /**
     * A depth-first step keeps `Valid()`: the top it pops was the start or had
     * a parent, the cells it pushes get one, and the links already there stay.
     */
    twostate lemma DfsKeepsValid()
      requires old(Valid()) && old(launchDfs) && old(dfsStack) != []
      requires unchanged(this`score, this`start, this`end, this`currentLast)
      requires unchanged(this`bfsQueue, this`astarSet, this`launchBfs, this`launchAstar)
      requires Consistent() && DfsStackOk()
      requires var current := old(dfsStack)[|old(dfsStack)| - 1];
        var ns := if current in old(visited) then [] else old(GetNeighbours(current));
        DfsDid(current, ns, old(dfsStack)[..|old(dfsStack)| - 1])
      ensures Valid()
    {
      var current := old(dfsStack)[|old(dfsStack)| - 1];
      var ns := if current in old(visited) then [] else old(GetNeighbours(current));
      LinksMembers(ns, current);
      assert current in old(dfsStack);
      forall c | c in dfsStack ensures c == start || c in parent {
        if c !in ns {
          assert c in old(dfsStack)[..|old(dfsStack)| - 1];
        }
      }
    }

    /**
     * `s[k]` is the cell getLowestScoreCell picks from `s`: its score is below
     * `ScoreCeiling`, no member scores lower, and every member before it scores higher.
     */
    ghost predicate FirstLowest(s: seq<Coord>, k: int)
      reads this`score
      requires forall c :: c in s ==> c in score
    {
      && 0 <= k < |s|
      && score[s[k]] < ScoreCeiling
      && (forall m :: 0 <= m < |s| ==> score[s[k]] <= score[s[m]])
      && (forall m :: 0 <= m < k ==> score[s[k]] < score[s[m]])
    }

    /** At most one position is the first lowest. */
    lemma FirstLowestUnique(s: seq<Coord>, k1: int, k2: int)
      requires forall c :: c in s ==> c in score
      requires FirstLowest(s, k1) && FirstLowest(s, k2)
      ensures k1 == k2
    {
    }

    /**
     * getLowestScoreCell: scan the set in insertion order, keeping the first
     * cell whose score is below everything seen so far, starting from
     * `ScoreCeiling`. Null when no member scores below the ceiling.
     */
    method GetLowestScoreCell() returns (lowest: Option<Coord>)
      requires forall c :: c in astarSet ==> c in score
      ensures lowest.None? <==> forall c :: c in astarSet ==> score[c] >= ScoreCeiling
      ensures lowest.Some? ==> exists k :: FirstLowest(astarSet, k) && astarSet[k] == lowest.value
      ensures lowest.Some? ==> forall k :: FirstLowest(astarSet, k) ==> astarSet[k] == lowest.value
    {
      var min := ScoreCeiling;
      var minCell: Option<Coord> := None;
      ghost var at := 0;
      var k := 0;
      while k < |astarSet|
        invariant 0 <= k <= |astarSet|
        invariant minCell.None? ==> min == ScoreCeiling && forall m :: 0 <= m < k ==> score[astarSet[m]] >= ScoreCeiling
        invariant minCell.Some? ==>
          && 0 <= at < k && minCell.value == astarSet[at] && min == score[astarSet[at]] < ScoreCeiling
          && (forall m :: 0 <= m < k ==> min <= score[astarSet[m]])
          && (forall m :: 0 <= m < at ==> min < score[astarSet[m]])
      {
        var cell := astarSet[k];
        assert cell in astarSet;
        if score[cell] < min {
          min := score[cell];
          minCell := Some(cell);
          at := k;
        }
        k := k + 1;
      }
      if minCell.Some? {
        assert FirstLowest(astarSet, at);
        forall k | FirstLowest(astarSet, k) ensures astarSet[k] == minCell.value {
          FirstLowestUnique(astarSet, k, at);
        }
      }
      return minCell;
    }

    /**
     * astarAlgorithm: take the first lowest-scored cell of the set; if it is
     * the end, stop the run and signal `done`; delete it from the set and mark
     * it visited. Then, for each neighbour: testSetContains on a `Set` is
     * always false, so the parent is always overwritten; the score update and
     * the `add` sit outside the `if` and run for every neighbour. The score is
     * `nextScore(neighbour, current's score)`. With an empty set, or no score
     * below the ceiling, nothing changes.
     */
    method AstarStep(nextScore: (Coord, int) -> int) returns (outcome: StepOutcome)
      requires Valid() && launchAstar
      modifies this`astarSet, this`launchAstar, this`done, this`stamp, this`clock
      modifies this`visited, this`parent, this`score
      ensures Valid()
      ensures outcome == FrontierEmpty <==> old(astarSet) == []
      ensures outcome == NoCandidate <==>
        old(astarSet) != [] && forall c :: c in old(astarSet) ==> old(score)[c] >= ScoreCeiling
      ensures !outcome.Expanded? ==> unchanged(this)
      ensures outcome.Expanded? ==> exists k :: old(FirstLowest(astarSet, k)) && old(astarSet)[k] == outcome.current
      ensures outcome.Expanded? ==> outcome.current in old(astarSet)
      ensures outcome.Expanded? && outcome.current in old(astarSet) ==>
        var current := outcome.current;
        var ns := old(GetNeighbours(current));
        && astarSet == AddAll(SetDelete(old(astarSet), current), ns)
        && launchAstar == (current != end)
        && done == (old(done) || current == end)
        && visited == old(visited) + {current}
        && parent == old(parent) + Links(ns, current)
        && score == old(score) + Rescored(ns, old(score)[current], nextScore)
    {
      if |astarSet| == 0 {
        return FrontierEmpty;
      }
      var lowest := GetLowestScoreCell();
      if lowest.None? {
        return NoCandidate;
      }
      outcome := Expanded(lowest.value);
      AstarTake(lowest.value, nextScore);
    }

    /**
     * What astarAlgorithm does once it has chosen `current`: the set loses
     * `current` and gains its open neighbours `ns`, in order; the run stops
     * at the end; `current` is visited; every cell of `ns` gets `current`
     * as parent and a score from `current`'s.
     */
    twostate predicate AstarDid(current: Coord, nextScore: (Coord, int) -> int)
      reads this
      requires InBounds(current) && old(Scored())
    {
      var ns := old(GetNeighbours(current));
        && astarSet == AddAll(SetDelete(old(astarSet), current), ns)
        && launchAstar == (current != end)
        && done == (old(done) || current == end)
        && visited == old(visited) + {current}
        && parent == old(parent) + Links(ns, current)
        && score == old(score) + Rescored(ns, old(score)[current], nextScore)
    }

    /** astarAlgorithm once `current` is chosen from the set. */
    method AstarTake(current: Coord, nextScore: (Coord, int) -> int)
      requires Valid() && launchAstar && current in astarSet
      modifies this`astarSet, this`launchAstar, this`done, this`stamp, this`clock
      modifies this`visited, this`parent, this`score
      ensures Valid()
      ensures AstarDid(current, nextScore)
    {
      AstarRun(current, nextScore);
      // the chosen cell was the start or had a parent; the cells added get one
      LinksMembers(old(GetNeighbours(current)), current);
    }

    /** astarAlgorithm once `current` is chosen, on the open set, the scores and the cells alone. */
    method AstarRun(current: Coord, nextScore: (Coord, int) -> int)
      requires Scored() && Consistent() && AstarSetOk() && InBounds(current) && launchAstar
      modifies this`astarSet, this`launchAstar, this`done, this`stamp, this`clock
      modifies this`visited, this`parent, this`score
      ensures Scored() && Consistent() && AstarSetOk()
      ensures AstarDid(current, nextScore)
    {
      ghost var ns := GetNeighbours(current);
      AstarStop(current);
      AstarExpand(current, ns, nextScore);
    }

    /** The end test of astarAlgorithm, then `astarSet.delete(current)`. */
    method AstarStop(current: Coord)
      requires AstarSetOk() && launchAstar
      modifies this`astarSet, this`launchAstar, this`done
      ensures AstarSetOk() && astarSet == SetDelete(old(astarSet), current)
      ensures launchAstar == (current != end)
      ensures done == (old(done) || current == end)
    {
      if current == end {
        launchAstar, done := false, true;
      }
      astarSet := SetDelete(astarSet, current);
    }

    /** The expansion of astarAlgorithm: mark `current` visited, then relax its neighbours `ns`. */
    method AstarExpand(current: Coord, ghost ns: seq<Coord>, nextScore: (Coord, int) -> int)
      requires Scored() && Consistent() && AstarSetOk() && InBounds(current)
      requires ns == GetNeighbours(current)
      modifies this`astarSet, this`stamp, this`clock, this`visited, this`parent, this`score
      ensures Scored() && Consistent() && AstarSetOk()
      ensures astarSet == AddAll(old(astarSet), ns)
      ensures visited == old(visited) + {current}
      ensures parent == old(parent) + Links(ns, current)
      ensures score == old(score) + Rescored(ns, old(score)[current], nextScore)
    {
      Visit(current);
      var neighbours := GetNeighbours(current);
      NeighboursFramed(current);
      RelaxAll(current, neighbours, nextScore);
    }

    /**
     * The `forEach` of astarAlgorithm: the parent write under the always-true
     * `!testSetContains(...)`, then, unguarded, the score write and the `add`.
     */
    method RelaxAll(current: Coord, ns: seq<Coord>, nextScore: (Coord, int) -> int)
      requires Scored() && Consistent() && AstarSetOk() && InBounds(current) && current in visited
      requires forall n :: n in ns ==> InBounds(n) && Adjacent(current, n) && n !in visited
      modifies this`astarSet, this`parent, this`score
      ensures Scored() && Consistent() && AstarSetOk()
      ensures astarSet == AddAll(old(astarSet), ns)
      ensures parent == old(parent) + Links(ns, current)
      ensures score == old(score) + Rescored(ns, old(score)[current], nextScore)
    {
      var k := 0;
      while k < |ns|
        invariant 0 <= k <= |ns|
        invariant Scored() && Consistent()
        invariant astarSet == AddAll(old(astarSet), ns[..k])
        invariant parent == old(parent) + Links(ns[..k], current)
        invariant score == old(score) + Rescored(ns[..k], old(score)[current], nextScore)
        invariant score[current] == old(score)[current]
      {
        GrowLinks(old(parent), ns, k, current);
        GrowScores(old(score), ns, k, old(score)[current], nextScore);
        AddAllGrows(old(astarSet), ns, k);
        Relax(current, ns[k], nextScore);
        k := k + 1;
      }
      assert ns[..k] == ns;
    }

    /** One round of that `forEach`, for the neighbour `n`. */
    method Relax(current: Coord, n: Coord, nextScore: (Coord, int) -> int)
      requires Scored() && Consistent() && InBounds(current) && current in visited
      requires InBounds(n) && Adjacent(current, n) && n !in visited
      modifies this`astarSet, this`parent, this`score
      ensures Scored() && Consistent()
      ensures astarSet == SetAdd(old(astarSet), n)
      ensures parent == old(parent)[n := current]
      ensures score == old(score)[n := nextScore(n, old(score)[current])]
    {
      var contains := TestSetContains(JsSet(astarSet), n);
      if !contains {
        SetParent(n, current);
      }
      score := score[n := nextScore(n, score[current])];
      astarSet := SetAdd(astarSet, n);
    }

    /** `current.visited = true` for a cell taken from a frontier; a first visit gets a time stamp. */
    method Visit(c: Coord)
      requires InBounds(c) && Consistent()
      modifies this`stamp, this`clock, this`visited
      ensures Consistent()
      ensures visited == old(visited) + {c}
    {
      assert CellOk(c);
      if c !in visited {
        stamp, clock := stamp[c := clock], clock + 1;
      }
      visited := visited + {c};
      forall d | InBounds(d) ensures CellOk(d) {
        if d != c {
          assert old(CellOk(d));
        }
      }
    }

    /** `neighbour.parent = current` for a neighbour not yet visited. */
    method SetParent(c: Coord, p: Coord)
      requires InBounds(c) && InBounds(p) && Consistent()
      requires p in visited && c !in visited && Adjacent(p, c)
      modifies this`parent
      ensures Consistent()
      ensures parent == old(parent)[c := p]
    {
      assert CellOk(c) && CellOk(p);
      parent := parent[c := p];
      forall d | InBounds(d) ensures CellOk(d) {
        if d != c {
          assert old(CellOk(d));
        }
      }
    }

    /** `neighbour.visited = true; neighbour.parent = current`, as breadth-first search does. */
    method Discover(c: Coord, p: Coord)
      requires InBounds(c) && InBounds(p) && Consistent()
      requires p in visited && c !in visited && Adjacent(p, c)
      modifies this`stamp, this`clock, this`visited, this`parent
      ensures Consistent()
      ensures visited == old(visited) + {c}
      ensures parent == old(parent)[c := p]
    {
      assert CellOk(c) && CellOk(p);
      stamp, clock := stamp[c := clock], clock + 1;
      visited := visited + {c};
      parent := parent[c := p];
      forall d | InBounds(d) ensures CellOk(d) {
        if d != c {
          assert old(CellOk(d));
        }
      }
    }

    /**
     * The cells showPath marks from `c` on: `c`, its parent, its parent's
     * parent, and so on, up to a cell with no parent.
     */
    ghost function PathFrom(c: Coord): (path: seq<Coord>)
      reads this`stamp, this`clock, this`visited, this`parent
      requires Consistent() && InBounds(c)
      ensures path != [] && path[0] == c
      decreases Rank(c)
    {
      assert CellOk(c);
      if c !in parent then [c] else [c] + PathFrom(parent[c])
    }

    /** The cells showPath has still to mark. */
    ghost function PathLeft(): seq<Coord>
      reads this
      requires Valid()
    {
      if currentLast.None? then [] else PathFrom(currentLast.value)
    }

    /**
     * The walk showPath makes is a chain of parent links that ends at a cell
     * without a parent, and each step goes to a cell next to the previous one.
     */
    lemma {:induction false} PathIsParentChain(c: Coord)
      requires Consistent() && InBounds(c)
      ensures var path := PathFrom(c);
        && (forall k :: 0 <= k < |path| ==> InBounds(path[k]))
        && (forall k :: 0 <= k < |path| - 1 ==> Parent(path[k]) == Some(path[k + 1]))
        && (forall k :: 0 <= k < |path| - 1 ==> Adjacent(path[k + 1], path[k]))
        && Parent(path[|path| - 1]).None?
      decreases Rank(c)
    {
      assert CellOk(c);
      var path := PathFrom(c);
      if c in parent {
        var p := parent[c];
        PathIsParentChain(p);
        var rest := PathFrom(p);
        assert path == [c] + rest;
        forall k | 0 <= k < |path| ensures InBounds(path[k]) {
          if k > 0 { assert path[k] == rest[k - 1]; }
        }
        forall k | 0 <= k < |path| - 1 ensures Parent(path[k]) == Some(path[k + 1]) && Adjacent(path[k + 1], path[k]) {
          if k > 0 { assert path[k] == rest[k - 1] && path[k + 1] == rest[k]; }
        }
        assert path[|path| - 1] == rest[|rest| - 1];
      }
    }

    /**
     * Every cell of that walk after the first was visited, each one earlier
     * than the one before it, so no cell comes twice and the walk ends.
     */
    lemma {:induction false} PathGoesBackInTime(c: Coord)
      requires Consistent() && InBounds(c)
      ensures var path := PathFrom(c);
        && (forall k :: 0 < k < |path| ==> path[k] in visited)
        && (forall a, b :: 0 <= a < b < |path| ==> Rank(path[b]) < Rank(path[a]))
        && Distinct(path)
      decreases Rank(c)
    {
      assert CellOk(c);
      var path := PathFrom(c);
      if c in parent {
        var p := parent[c];
        PathGoesBackInTime(p);
        var rest := PathFrom(p);
        assert path == [c] + rest;
        assert Rank(p) < Rank(c);
        forall k | 0 < k < |path| ensures path[k] in visited {
          assert path[k] == rest[k - 1];
          if k == 1 { assert CellOk(p); }
        }
        forall a, b | 0 <= a < b < |path| ensures Rank(path[b]) < Rank(path[a]) {
          assert path[b] == rest[b - 1];
          if a > 0 { assert path[a] == rest[a - 1]; } else if b > 1 { assert Rank(rest[b - 1]) < Rank(rest[0]); }
        }
      }
    }

    /**
     * From a visited cell, the walk showPath makes ends at the start: every
     * cell of it after the first was visited, and a visited cell without a
     * parent is the start.
     */
    lemma PathEndsAtStart(c: Coord)
      requires Valid() && InBounds(c) && c in visited
      ensures PathFrom(c)[|PathFrom(c)| - 1] == start
    {
      PathIsParentChain(c);
      PathGoesBackInTime(c);
      var path := PathFrom(c);
      assert path[|path| - 1] in visited && InBounds(path[|path| - 1]);
    }

    /**
     * Once a search has set `done`, the walk from the end goes from the end to
     * the start along parent links between adjacent cells, and visits no cell
     * twice; so showPath marks a path from the start to the end.
     */
    lemma PathFromEndReachesStart()
      requires Valid() && done
      ensures var path := PathFrom(end);
        && path[0] == end && path[|path| - 1] == start
        && (forall k :: 0 <= k < |path| - 1 ==> Parent(path[k]) == Some(path[k + 1]))
        && (forall k :: 0 <= k < |path| - 1 ==> Adjacent(path[k + 1], path[k]))
        && Distinct(path)
    {
      PathIsParentChain(end);
      PathGoesBackInTime(end);
      PathEndsAtStart(end);
    }

    /**
     * showPath: with no cursor, put it back on the end and mark nothing;
     * otherwise mark the cursor's cell as part of the path and move the
     * cursor to that cell's parent. Nothing else changes.
     */
    method ShowPath()
      requires Valid()
      modifies this`currentLast, this`partOfPath
      ensures Valid()
      ensures old(currentLast).None? ==> currentLast == Some(end) && partOfPath == old(partOfPath)
      ensures old(currentLast).Some? ==>
        var c := old(currentLast).value;
        currentLast == Parent(c) && partOfPath == old(partOfPath) + {c}
      ensures old(currentLast).Some? ==> PathLeft() == old(PathLeft())[1..]
    {
      if currentLast.None? {
        currentLast := Some(end);
        return;
      }
      var c := currentLast.value;
      assert CellOk(c);
      partOfPath := partOfPath + {c};
      currentLast := if c in parent then Some(parent[c]) else None;
    }
  }
}
