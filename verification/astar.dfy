/**
 AStar.ts: best-first search over the walkability field, moving between
 cells that touch by an edge or a corner.

 The open set is kept in insertion order (a JavaScript `Set` iterates that
 way), and the best cell is the first one with the smallest estimate. The
 closed set and the search's per-cell bookkeeping (travelled distance `g`,
 estimate `f`, parent) are a set and a map; a coordinate missing from the
 map holds the blank cell the source's field starts with.

 The Diagonal and Euclidean heuristics are floating-point in the source;
 they come in as caller-supplied integer metrics. Manhattan is exact.
 */
module AStar {
  import opened Nullable
  import opened Vector2
  import opened Seqs
  import opened Fields
  import opened PathfindingTypes

  datatype CellState = Unknown | Open | Closed | Best

  /** `TCell` of the search field. */
  datatype SearchCell = SearchCell(g: int, f: int, parent: Option<Vec2>, state: CellState)

  const Blank := SearchCell(0, 0, None, Unknown)

  /** The two floating-point distance functions, supplied by the caller. */
  datatype Metrics = Metrics(diagonal: (Vec2, Vec2) -> int, euclidean: (Vec2, Vec2) -> int)

  /** `distance`: the heuristic the agent's settings select. */
  function Distance(h: Heuristic, m: Metrics, a: Vec2, b: Vec2): (d: int)
    ensures h == Manhattan ==> Chebyshev(a, b) <= d <= 2 * Chebyshev(a, b)
    ensures h == Diagonal ==> d == m.diagonal(a, b)
    ensures h == Euclidean ==> d == m.euclidean(a, b)
  {
    match h
    case Manhattan => Abs(a.x - b.x) + Abs(a.y - b.y)
    case Diagonal => m.diagonal(a, b)
    case Euclidean => m.euclidean(a, b)
  }

  /** The Manhattan distance is a metric on coordinates: zero exactly on equal
      points, symmetric, and never more than two steps' worth for neighbours. */
  lemma ManhattanIsMetric(m: Metrics, a: Vec2, b: Vec2)
    ensures Distance(Manhattan, m, a, b) == Distance(Manhattan, m, b, a)
    ensures Distance(Manhattan, m, a, b) == 0 <==> a == b
    ensures Adjacent(a, b) ==> 1 <= Distance(Manhattan, m, a, b) <= 2
  {
  }

  /** The search state: open cells in insertion order, closed cells, bookkeeping. */
  datatype Search = Search(open: seq<Vec2>, closed: set<Vec2>, cells: map<Vec2, SearchCell>)

  function At(cells: map<Vec2, SearchCell>, q: Vec2): SearchCell {
    if q in cells then cells[q] else Blank
  }

  /** Every coordinate of a `width` by `height` field. */
  ghost function Coords(width: int, height: int): set<Vec2> {
    set x, y | 0 <= x < width && 0 <= y < height :: Vec2(x, y)
  }

  /** The first open cell with the smallest estimate: the loop at AStar.ts
      replaces its candidate only on a strictly smaller `f`. */
  method SelectBest(open: seq<Vec2>, cells: map<Vec2, SearchCell>) returns (k: nat)
    requires |open| > 0
    ensures k < |open|
    ensures forall i :: 0 <= i < |open| ==> At(cells, open[k]).f <= At(cells, open[i]).f
    ensures forall i :: 0 <= i < k ==> At(cells, open[i]).f > At(cells, open[k]).f
  {
    k := 0;
    var i := 1;
    while i < |open|
      invariant 1 <= i <= |open| && k < i
      invariant forall j :: 0 <= j < i ==> At(cells, open[k]).f <= At(cells, open[j]).f
      invariant forall j :: 0 <= j < k ==> At(cells, open[j]).f > At(cells, open[k]).f
    {
      if At(cells, open[i]).f < At(cells, open[k]).f {
        k := i;
      }
      i := i + 1;
    }
  }

  /** The entry relaxing `q` from `best` proposes: the distance walked so far
      plus one step, that plus the heuristic to the target, `best` as parent. */
  function Proposal(s: Search, h: Heuristic, m: Metrics, target: Vec2, best: Vec2, q: Vec2): SearchCell {
    var g := At(s.cells, best).g + Distance(h, m, best, q);
    SearchCell(g, g + Distance(h, m, q, target), Some(best), Open)
  }

  /** `q` is open with an estimate strictly below the proposal's, so it stays. */
  predicate Kept(s: Search, h: Heuristic, m: Metrics, target: Vec2, best: Vec2, q: Vec2) {
    q in s.open && At(s.cells, q).f < Proposal(s, h, m, target, best, q).f
  }

  /** Relaxing `q` writes the proposal: `q` is walkable, not closed, and not
      kept by a strictly smaller stored estimate. */
  predicate Rewrites(field: Field<InputCell>, s: Search, h: Heuristic, m: Metrics, target: Vec2, best: Vec2, q: Vec2) {
    Walkable(field, q) && q !in s.closed && !Kept(s, h, m, target, best, q)
  }

  /** `q`'s entry in `r` is what relaxing it from `best` in `s0` gives. */
  predicate Relaxed(field: Field<InputCell>, s0: Search, h: Heuristic, m: Metrics, target: Vec2, best: Vec2,
                    r: Search, q: Vec2) {
    At(r.cells, q) == if Rewrites(field, s0, h, m, target, best, q) then Proposal(s0, h, m, target, best, q)
                      else At(s0.cells, q)
  }

  /** One neighbour of the expanded cell `best` (AStar.ts, the body of the
      neighbour loop): unwalkable and closed neighbours are skipped; an open
      neighbour whose stored estimate is strictly smaller than the new one is
      kept; otherwise the neighbour gets the new distances and `best` as its
      parent and goes to the back of the open set. */
  function Relax(field: Field<InputCell>, target: Vec2, h: Heuristic, m: Metrics,
                 s: Search, best: Vec2, q: Vec2): (r: Search)
    ensures r.closed == s.closed
    ensures !Walkable(field, q) || q in s.closed ==> r == s
    ensures Walkable(field, q) && q !in s.closed ==> q in r.open
    ensures forall x :: x != q ==> (x in r.open <==> x in s.open)
    ensures forall x :: x != q ==> At(r.cells, x) == At(s.cells, x)
    ensures r != s ==> r.open == Without(s.open, q) + [q] && At(r.cells, q).parent == Some(best)
    ensures r != s && q in s.open ==> At(r.cells, q).f <= At(s.cells, q).f
    ensures Walkable(field, q) && q !in s.closed && !Kept(s, h, m, target, best, q) ==>
      r.open == Without(s.open, q) + [q] && At(r.cells, q) == Proposal(s, h, m, target, best, q)
    ensures Kept(s, h, m, target, best, q) ==> r == s
    ensures NoDups(s.open) ==> NoDups(r.open)
  {
    if !Walkable(field, q) || q in s.closed || Kept(s, h, m, target, best, q) then s
    else
      var rest := Without(s.open, q);
      assert forall x :: x != q ==> (x in rest <==> x in s.open);
      Search(rest + [q], s.closed, s.cells[q := Proposal(s, h, m, target, best, q)])
  }

  /** The cells of `s` lie in the field; the open list has no repeats and is
      disjoint from the closed set. */
  ghost predicate Placed(field: Field<InputCell>, s: Search) {
    && NoDups(s.open)
    && (forall i :: 0 <= i < |s.open| ==> InBounds(field.width, field.height, s.open[i]))
    && (forall i :: 0 <= i < |s.open| ==> s.open[i] !in s.closed)
    && (forall q :: q in s.closed ==> InBounds(field.width, field.height, q))
  }

  /** `q` is the start, or it was reached from a neighbour in `parents` by a
      step onto a walkable cell. */
  ghost predicate Reached(field: Field<InputCell>, start: Vec2, cells: map<Vec2, SearchCell>,
                          q: Vec2, parents: set<Vec2>) {
    q == start ||
      (&& At(cells, q).parent.Some?
       && At(cells, q).parent.value in parents
       && Adjacent(At(cells, q).parent.value, q)
       && Walkable(field, q))
  }

  /** Parent links: open cells hang off closed cells (or the cell `extra` being
      expanded); closed cells hang off cells closed strictly earlier. */
  ghost predicate Linked(field: Field<InputCell>, start: Vec2, s: Search, rank: map<Vec2, nat>, extra: set<Vec2>) {
    && At(s.cells, start).parent == None
    && (forall i :: 0 <= i < |s.open| ==> Reached(field, start, s.cells, s.open[i], s.closed + extra))
    && (forall q :: q in s.closed ==> q in rank && rank[q] < |s.closed|)
    && (forall q :: q in s.closed ==> Reached(field, start, s.cells, q, s.closed))
    && (forall q :: q in s.closed && q != start ==> rank[At(s.cells, q).parent.value] < rank[q])
  }

  /** Every walkable neighbour of a closed cell has been discovered. */
  ghost predicate Frontier(field: Field<InputCell>, s: Search, extra: set<Vec2>) {
    forall c, q :: c in s.closed && Adjacent(c, q) && Walkable(field, q) ==>
      q in s.open || q in s.closed || q in extra
  }

  /** A walkable cell `q` has been put in the open or the closed list. */
  predicate Discovered(field: Field<InputCell>, s: Search, q: Vec2) {
    Walkable(field, q) ==> q in s.open || q in s.closed
  }

  /** The main loop's invariant. */
  ghost predicate Inv(field: Field<InputCell>, start: Vec2, target: Vec2, s: Search, rank: map<Vec2, nat>) {
    && Placed(field, s)
    && (start in s.closed || (s.closed == {} && s.open == [start]))
    && target !in s.closed
    && Linked(field, start, s, rank, {})
    && Frontier(field, s, {})
  }

  /** The neighbour loop of one expansion, over `getNeighbourCellsAt(best)`.
      Every neighbour ends with the entry relaxing it from `best` in `s` gives,
      and no other cell changes; the rewritten neighbours, `moved`, are listed
      in the order the loop visits them and go to the back of the open list,
      behind the other open cells in their old order. */
  method Expand(field: Field<InputCell>, start: Vec2, target: Vec2, h: Heuristic, m: Metrics,
                s: Search, ghost rank: map<Vec2, nat>, best: Vec2) returns (r: Search, ghost moved: seq<Vec2>)
    requires Valid(field) && InBounds(field.width, field.height, best)
    requires Placed(field, s) && best !in s.open && best !in s.closed
    requires start in s.closed || best == start
    requires Linked(field, start, s, rank, {best})
    requires Frontier(field, s, {best})
    ensures r.closed == s.closed
    ensures Placed(field, r) && best !in r.open
    ensures forall x :: x in s.open ==> x in r.open
    ensures forall x :: x in s.closed || x == best ==> At(r.cells, x) == At(s.cells, x)
    ensures Linked(field, start, r, rank, {best})
    ensures Frontier(field, r, {best})
    ensures forall q :: Adjacent(best, q) && Walkable(field, q) ==> q in r.open || q in r.closed
    ensures forall q :: Adjacent(best, q) ==> Relaxed(field, s, h, m, target, best, r, q)
    ensures forall q :: !Adjacent(best, q) ==> At(r.cells, q) == At(s.cells, q)
    ensures forall q :: q in moved <==> Adjacent(best, q) && Rewrites(field, s, h, m, target, best, q)
    ensures forall i, j :: 0 <= i < j < |moved| ==> ColumnMajorBefore(moved[i], moved[j])
    ensures r.open == WithoutAll(s.open, moved) + moved
  {
    var neighbours := GetNeighbourCellsAt(field, best);
    r, moved := s, [];
    ghost var done: set<Vec2> := {};
    WithoutNone(s.open);
    var i := 0;
    while i < |neighbours|
      invariant i <= |neighbours|
      invariant Visiting(field, start, s, rank, best, neighbours, i, r)
      invariant Visited(field, target, h, m, s, best, neighbours, i, r, done, moved)
    {
      r, done, moved := Visit(field, start, target, h, m, s, rank, best, neighbours, i, r, done, moved);
      i := i + 1;
    }
    ExpandCovers(field, s, h, m, target, best, r, neighbours, done, moved);
  }

  /** What the neighbour loop keeps of the expansion's invariant after
      visiting `neighbours[..i]`: cells placed, parent links, frontier, and
      every visited walkable neighbour discovered. */
  ghost predicate Visiting(field: Field<InputCell>, start: Vec2, s: Search, rank: map<Vec2, nat>, best: Vec2,
                           neighbours: seq<Cell<InputCell>>, i: nat, r: Search) {
    && Valid(field) && i <= |neighbours|
    && (forall k :: 0 <= k < |neighbours| ==> neighbours[k].position.Some? && Adjacent(best, neighbours[k].position.value))
    && Placed(field, r) && best !in r.open && best !in r.closed && r.closed == s.closed
    && (start in r.closed || best == start)
    && (forall x :: x in s.open ==> x in r.open)
    && (forall x :: x in s.closed || x == best ==> At(r.cells, x) == At(s.cells, x))
    && Linked(field, start, r, rank, {best})
    && Frontier(field, r, {best})
    && (forall k :: 0 <= k < i ==> Discovered(field, r, neighbours[k].position.value))
  }

  /** The visited cells `done` after visiting `neighbours[..i]`, tracked
      against the loop's start `s`; `moved` stays in visit order. */
  ghost predicate Visited(field: Field<InputCell>, target: Vec2, h: Heuristic, m: Metrics, s: Search, best: Vec2,
                          neighbours: seq<Cell<InputCell>>, i: nat, r: Search, done: set<Vec2>, moved: seq<Vec2>)
    requires forall k :: 0 <= k < |neighbours| ==> neighbours[k].position.Some?
  {
    && (forall a, b :: 0 <= a < b < |neighbours| ==>
          ColumnMajorBefore(neighbours[a].position.value, neighbours[b].position.value))
    && Tracks(field, s, h, m, target, best, r, done, moved)
    && (forall k :: 0 <= k < i && k < |neighbours| ==> neighbours[k].position.value in done)
    && (forall q :: q in done ==> Adjacent(best, q))
    && (forall q, k :: q in done && i <= k < |neighbours| ==> ColumnMajorBefore(q, neighbours[k].position.value))
    && (forall a, b :: 0 <= a < b < |moved| ==> ColumnMajorBefore(moved[a], moved[b]))
  }

  /** One iteration of the neighbour loop: relax `neighbours[i]`. */
  method Visit(field: Field<InputCell>, start: Vec2, target: Vec2, h: Heuristic, m: Metrics,
               s: Search, ghost rank: map<Vec2, nat>, best: Vec2, neighbours: seq<Cell<InputCell>>, i: nat,
               r: Search, ghost done: set<Vec2>, ghost moved: seq<Vec2>)
    returns (r': Search, ghost done': set<Vec2>, ghost moved': seq<Vec2>)
    requires i < |neighbours| && Visiting(field, start, s, rank, best, neighbours, i, r)
    requires Visited(field, target, h, m, s, best, neighbours, i, r, done, moved)
    ensures Visiting(field, start, s, rank, best, neighbours, i + 1, r')
    ensures Visited(field, target, h, m, s, best, neighbours, i + 1, r', done', moved')
  {
    var q := neighbours[i].position.value;
    VisitFresh(field, target, h, m, s, best, neighbours, i, r, done, moved);
    r', moved' := RelaxNeighbour(field, start, target, h, m, r, rank, best, q, s, done, moved);
    done' := done + {q};
    VisitingStep(field, start, s, rank, best, neighbours, i, r, r');
    VisitedStep(field, target, h, m, s, best, neighbours, i, r, done, moved, r', moved');
  }

  /** The neighbour about to be visited has not been visited yet. */
  lemma VisitFresh(field: Field<InputCell>, target: Vec2, h: Heuristic, m: Metrics, s: Search, best: Vec2,
                   neighbours: seq<Cell<InputCell>>, i: nat, r: Search, done: set<Vec2>, moved: seq<Vec2>)
    requires i < |neighbours| && forall k :: 0 <= k < |neighbours| ==> neighbours[k].position.Some?
    requires Visited(field, target, h, m, s, best, neighbours, i, r, done, moved)
    ensures neighbours[i].position.value !in done
  {
  }

  /** The expansion's invariant survives relaxing `neighbours[i]`. */
  lemma VisitingStep(field: Field<InputCell>, start: Vec2, s: Search, rank: map<Vec2, nat>, best: Vec2,
                     neighbours: seq<Cell<InputCell>>, i: nat, r: Search, r': Search)
    requires i < |neighbours| && Visiting(field, start, s, rank, best, neighbours, i, r)
    requires r'.closed == r.closed
    requires Placed(field, r') && best !in r'.open
    requires forall x :: x in r.open ==> x in r'.open
    requires forall x :: x in r.closed || x == best ==> At(r'.cells, x) == At(r.cells, x)
    requires Linked(field, start, r', rank, {best})
    requires Frontier(field, r', {best})
    requires Discovered(field, r', neighbours[i].position.value)
    ensures Visiting(field, start, s, rank, best, neighbours, i + 1, r')
  {
  }

  /** The tracking of visited cells survives relaxing `neighbours[i]`. */
  lemma VisitedStep(field: Field<InputCell>, target: Vec2, h: Heuristic, m: Metrics, s: Search, best: Vec2,
                    neighbours: seq<Cell<InputCell>>, i: nat, r: Search, done: set<Vec2>, moved: seq<Vec2>,
                    r': Search, moved': seq<Vec2>)
    requires i < |neighbours| && forall k :: 0 <= k < |neighbours| ==> neighbours[k].position.Some? && Adjacent(best, neighbours[k].position.value)
    requires Visited(field, target, h, m, s, best, neighbours, i, r, done, moved)
    requires Tracks(field, s, h, m, target, best, r', done + {neighbours[i].position.value}, moved')
    requires moved' == moved || moved' == moved + [neighbours[i].position.value]
    ensures Visited(field, target, h, m, s, best, neighbours, i + 1, r', done + {neighbours[i].position.value}, moved')
  {
    var q := neighbours[i].position.value;
    assert forall x :: x in moved ==> x in done;
    MovedSorted(moved, moved', q, done);
  }

  /** Appending a cell that every earlier entry precedes keeps `moved` sorted. */
  lemma MovedSorted(moved: seq<Vec2>, moved': seq<Vec2>, q: Vec2, done: set<Vec2>)
    requires forall a, b :: 0 <= a < b < |moved| ==> ColumnMajorBefore(moved[a], moved[b])
    requires forall x :: x in moved ==> x in done
    requires forall x :: x in done ==> ColumnMajorBefore(x, q)
    requires moved' == moved || moved' == moved + [q]
    ensures forall a, b :: 0 <= a < b < |moved'| ==> ColumnMajorBefore(moved'[a], moved'[b])
  {
    forall a, b | 0 <= a < b < |moved'|
      ensures ColumnMajorBefore(moved'[a], moved'[b])
    {
      if b == |moved| {
        assert moved'[a] == moved[a] && moved[a] in done;
      }
    }
  }

  /** Once the neighbour loop has visited every in-bounds neighbour, the
      tracked facts about the visited cells are facts about all neighbours. */
  lemma ExpandCovers(field: Field<InputCell>, s: Search, h: Heuristic, m: Metrics, target: Vec2, best: Vec2,
                     r: Search, neighbours: seq<Cell<InputCell>>, done: set<Vec2>, moved: seq<Vec2>)
    requires Valid(field)
    requires forall q :: InBounds(field.width, field.height, q) && Adjacent(best, q) ==> Some(q) in Positions(neighbours)
    requires forall k :: 0 <= k < |neighbours| ==> neighbours[k].position.Some? && neighbours[k].position.value in done
    requires forall q :: q in done ==> Adjacent(best, q)
    requires Tracks(field, s, h, m, target, best, r, done, moved)
    ensures forall q :: Adjacent(best, q) ==> Relaxed(field, s, h, m, target, best, r, q)
    ensures forall q :: !Adjacent(best, q) ==> At(r.cells, q) == At(s.cells, q)
    ensures forall q :: q in moved <==> Adjacent(best, q) && Rewrites(field, s, h, m, target, best, q)
  {
    forall q | Adjacent(best, q) && Walkable(field, q)
      ensures q in done
    {
      assert Some(q) in Positions(neighbours);
      var k :| 0 <= k < |neighbours| && Positions(neighbours)[k] == Some(q);
      assert neighbours[k].position.value == q;
    }
  }

  /** What the neighbour loop keeps about the cells `done` it has visited:
      each holds the entry relaxing it from `best` in `s0` gives, all others
      are as in `s0`, and the rewritten ones, `moved`, sit at the back of the
      open list in visiting order behind the other open cells. */
  ghost predicate Tracks(field: Field<InputCell>, s0: Search, h: Heuristic, m: Metrics, target: Vec2, best: Vec2,
                         r: Search, done: set<Vec2>, moved: seq<Vec2>) {
    && r.closed == s0.closed
    && At(r.cells, best) == At(s0.cells, best)
    && (forall q :: q in done ==> Relaxed(field, s0, h, m, target, best, r, q))
    && (forall q :: q !in done ==> At(r.cells, q) == At(s0.cells, q))
    && (forall q :: q in moved <==> q in done && Rewrites(field, s0, h, m, target, best, q))
    && r.open == WithoutAll(s0.open, moved) + moved
  }

  /** Relaxing a cell the loop has not visited yet extends what it tracks:
      relaxing from the current search and from the loop's start agree. */
  lemma RelaxTracks(field: Field<InputCell>, target: Vec2, h: Heuristic, m: Metrics, s0: Search, best: Vec2,
                    r: Search, done: set<Vec2>, moved: seq<Vec2>, q: Vec2)
    requires Tracks(field, s0, h, m, target, best, r, done, moved) && q !in done && q != best
    ensures Tracks(field, s0, h, m, target, best, Relax(field, target, h, m, r, best, q), done + {q},
                   if Rewrites(field, s0, h, m, target, best, q) then moved + [q] else moved)
  {
    var r' := Relax(field, target, h, m, r, best, q);
    assert q !in moved && (q in r.open <==> q in s0.open) by {
      assert forall x :: x in moved ==> x in done;
    }
    assert Proposal(r, h, m, target, best, q) == Proposal(s0, h, m, target, best, q);
    if Rewrites(field, s0, h, m, target, best, q) {
      assert Rewrites(field, r, h, m, target, best, q);
      TracksRewrite(field, s0, h, m, target, best, r, r', done, moved, q);
    } else {
      assert !Rewrites(field, r, h, m, target, best, q);
      TracksKeep(field, s0, h, m, target, best, r, done, moved, q);
    }
  }

  /** The tracked facts after a relaxation that writes the proposal. */
  lemma TracksRewrite(field: Field<InputCell>, s0: Search, h: Heuristic, m: Metrics, target: Vec2, best: Vec2,
                      r: Search, r': Search, done: set<Vec2>, moved: seq<Vec2>, q: Vec2)
    requires Tracks(field, s0, h, m, target, best, r, done, moved) && q !in done && q !in moved && q != best
    requires Rewrites(field, s0, h, m, target, best, q)
    requires r'.closed == r.closed && r'.open == Without(r.open, q) + [q]
    requires At(r'.cells, q) == Proposal(s0, h, m, target, best, q)
    requires forall x :: x != q ==> At(r'.cells, x) == At(r.cells, x)
    ensures Tracks(field, s0, h, m, target, best, r', done + {q}, moved + [q])
  {
    calc {
      r'.open;
      Without(WithoutAll(s0.open, moved) + moved, q) + [q];
      { WithoutAppend(WithoutAll(s0.open, moved), moved, q); WithoutAbsent(moved, q); }
      Without(WithoutAll(s0.open, moved), q) + moved + [q];
      { WithoutMore(s0.open, moved, q); }
      WithoutAll(s0.open, moved + [q]) + (moved + [q]);
    }
  }

  /** The tracked facts after a relaxation that keeps the search. */
  lemma TracksKeep(field: Field<InputCell>, s0: Search, h: Heuristic, m: Metrics, target: Vec2, best: Vec2,
                   r: Search, done: set<Vec2>, moved: seq<Vec2>, q: Vec2)
    requires Tracks(field, s0, h, m, target, best, r, done, moved) && q !in done
    requires !Rewrites(field, s0, h, m, target, best, q)
    ensures Tracks(field, s0, h, m, target, best, r, done + {q}, moved)
  {
  }

  /** `Relax` as the neighbour loop sees it: the loop's invariant is kept,
      the neighbour, if walkable, is now open or closed, and the tracked
      facts extend to it. */
  method RelaxNeighbour(field: Field<InputCell>, start: Vec2, target: Vec2, h: Heuristic, m: Metrics,
                        s: Search, ghost rank: map<Vec2, nat>, best: Vec2, q: Vec2,
                        ghost s0: Search, ghost done: set<Vec2>, ghost moved: seq<Vec2>)
    returns (r: Search, ghost moved': seq<Vec2>)
    requires Valid(field) && Adjacent(best, q)
    requires Placed(field, s) && best !in s.open && best !in s.closed
    requires start in s.closed || best == start
    requires Linked(field, start, s, rank, {best})
    requires Frontier(field, s, {best})
    requires Tracks(field, s0, h, m, target, best, s, done, moved) && q !in done
    ensures r.closed == s.closed
    ensures Placed(field, r) && best !in r.open
    ensures forall x :: x in s.open ==> x in r.open
    ensures forall x :: x in s.closed || x == best ==> At(r.cells, x) == At(s.cells, x)
    ensures Linked(field, start, r, rank, {best})
    ensures Frontier(field, r, {best})
    ensures Discovered(field, r, q)
    ensures Tracks(field, s0, h, m, target, best, r, done + {q}, moved')
    ensures moved' == if Rewrites(field, s0, h, m, target, best, q) then moved + [q] else moved
  {
    r := Relax(field, target, h, m, s, best, q);
    RelaxKeeps(field, start, target, h, m, s, rank, best, q);
    RelaxTracks(field, target, h, m, s0, best, s, done, moved, q);
    moved' := if Rewrites(field, s0, h, m, target, best, q) then moved + [q] else moved;
  }

  /** One relaxation keeps the expansion's invariant. */
  lemma RelaxKeeps(field: Field<InputCell>, start: Vec2, target: Vec2, h: Heuristic, m: Metrics,
                   s: Search, rank: map<Vec2, nat>, best: Vec2, q: Vec2)
    requires Valid(field) && Adjacent(best, q)
    requires Placed(field, s) && best !in s.open && best !in s.closed
    requires start in s.closed || best == start
    requires Linked(field, start, s, rank, {best})
    requires Frontier(field, s, {best})
    ensures var r := Relax(field, target, h, m, s, best, q);
      && Placed(field, r) && best !in r.open
      && (forall x :: x in s.closed || x == best ==> At(r.cells, x) == At(s.cells, x))
      && Linked(field, start, r, rank, {best})
      && Frontier(field, r, {best})
  {
    var r := Relax(field, target, h, m, s, best, q);
    if r != s {
      assert q != best && q != start;
      assert q !in s.closed && Walkable(field, q);
      assert forall i :: 0 <= i < |r.open| ==> r.open[i] == q || r.open[i] in s.open;
      assert Reached(field, start, r.cells, q, s.closed + {best});
      forall i | 0 <= i < |r.open|
        ensures Reached(field, start, r.cells, r.open[i], r.closed + {best})
      {
        if r.open[i] != q {
          var j :| 0 <= j < |s.open| && s.open[j] == r.open[i];
          assert Reached(field, start, s.cells, s.open[j], s.closed + {best});
        }
      }
      forall x | x in s.closed
        ensures Reached(field, start, r.cells, x, r.closed)
      {
        assert Reached(field, start, s.cells, x, s.closed);
      }
    }
  }

  /** Each entry of `chain` but the last is a walkable cell whose parent is
      the next entry, a neighbour. */
  ghost predicate ParentChain(field: Field<InputCell>, cells: map<Vec2, SearchCell>, chain: seq<Vec2>) {
    && (forall i :: 0 <= i < |chain| - 1 ==> At(cells, chain[i]).parent == Some(chain[i + 1]))
    && (forall i :: 0 <= i < |chain| - 1 ==> Adjacent(chain[i + 1], chain[i]))
    && (forall i :: 0 <= i < |chain| - 1 ==> Walkable(field, chain[i]))
  }

  /** The parent chain from the target back to the start (AStar.ts, the
      `while (cell !== null)` loop), target first. */
  method Reconstruct(field: Field<InputCell>, start: Vec2, target: Vec2, s: Search, ghost rank: map<Vec2, nat>)
    returns (chain: seq<Vec2>)
    requires Linked(field, start, s, rank, {})
    requires target !in s.closed && Reached(field, start, s.cells, target, s.closed)
    ensures |chain| > 0 && chain[0] == target && chain[|chain| - 1] == start
    ensures ParentChain(field, s.cells, chain)
    ensures forall i :: 0 < i < |chain| ==> chain[i] in s.closed
    ensures NoDups(chain)
  {
    var cur := target;
    chain := [target];
    while At(s.cells, cur).parent.Some?
      invariant ChainSoFar(field, start, target, s, rank, chain) && chain[|chain| - 1] == cur
      decreases if cur in s.closed then rank[cur] else |s.closed|
    {
      var p := At(s.cells, cur).parent.value;
      ChainStep(field, start, target, s, rank, chain);
      chain := chain + [p];
      cur := p;
    }
    ChainNoDups(s, rank, chain);
  }

  /** The loop invariant of `Reconstruct`: a parent chain from the target
      through closed cells of strictly decreasing closing rank. */
  ghost predicate ChainSoFar(field: Field<InputCell>, start: Vec2, target: Vec2, s: Search,
                             rank: map<Vec2, nat>, chain: seq<Vec2>) {
    && |chain| > 0 && chain[0] == target
    && (chain[|chain| - 1] == target || chain[|chain| - 1] in s.closed)
    && Reached(field, start, s.cells, chain[|chain| - 1], s.closed)
    && (forall i :: 0 < i < |chain| ==> chain[i] in s.closed && chain[i] in rank)
    && (forall i, j :: 0 < i < j < |chain| ==> rank[chain[i]] > rank[chain[j]])
    && ParentChain(field, s.cells, chain)
  }

  lemma ChainStep(field: Field<InputCell>, start: Vec2, target: Vec2, s: Search,
                  rank: map<Vec2, nat>, chain: seq<Vec2>)
    requires Linked(field, start, s, rank, {}) && target !in s.closed
    requires ChainSoFar(field, start, target, s, rank, chain)
    requires At(s.cells, chain[|chain| - 1]).parent.Some?
    ensures var cur := chain[|chain| - 1];
      var p := At(s.cells, cur).parent.value;
      && p in s.closed
      && (cur in s.closed ==> rank[p] < rank[cur])
      && (cur !in s.closed ==> rank[p] < |s.closed|)
      && ChainSoFar(field, start, target, s, rank, chain + [p])
  {
    var cur := chain[|chain| - 1];
    var p := At(s.cells, cur).parent.value;
    assert cur != start;
    assert p in s.closed && Adjacent(p, cur) && Walkable(field, cur);
    assert Reached(field, start, s.cells, p, s.closed);
    ExtendParentChain(field, s.cells, chain, p);
    RanksDecrease(rank, chain, p, s.closed);
  }

  lemma ExtendParentChain(field: Field<InputCell>, cells: map<Vec2, SearchCell>, chain: seq<Vec2>, p: Vec2)
    requires |chain| > 0 && ParentChain(field, cells, chain)
    requires At(cells, chain[|chain| - 1]).parent == Some(p)
    requires Adjacent(p, chain[|chain| - 1]) && Walkable(field, chain[|chain| - 1])
    ensures ParentChain(field, cells, chain + [p])
  {
    var chain' := chain + [p];
    assert forall i :: 0 <= i < |chain| ==> chain'[i] == chain[i];
  }

  lemma RanksDecrease(rank: map<Vec2, nat>, chain: seq<Vec2>, p: Vec2, closed: set<Vec2>)
    requires |chain| > 0 && p in closed && p in rank
    requires forall i :: 0 < i < |chain| ==> chain[i] in closed && chain[i] in rank
    requires forall i, j :: 0 < i < j < |chain| ==> rank[chain[i]] > rank[chain[j]]
    requires |chain| > 1 ==> rank[p] < rank[chain[|chain| - 1]]
    ensures var chain' := chain + [p];
      && (forall i :: 0 < i < |chain'| ==> chain'[i] in closed && chain'[i] in rank)
      && (forall i, j :: 0 < i < j < |chain'| ==> rank[chain'[i]] > rank[chain'[j]])
  {
    var chain' := chain + [p];
    assert forall i :: 0 <= i < |chain| ==> chain'[i] == chain[i];
    assert forall i :: 0 < i < |chain| ==> rank[chain[i]] >= rank[chain[|chain| - 1]];
  }

  lemma ChainNoDups(s: Search, rank: map<Vec2, nat>, chain: seq<Vec2>)
    requires |chain| > 0 && chain[0] !in s.closed
    requires forall i :: 0 < i < |chain| ==> chain[i] in s.closed && chain[i] in rank
    requires forall i, j :: 0 < i < j < |chain| ==> rank[chain[i]] > rank[chain[j]]
    ensures NoDups(chain)
  {
    forall i, j | 0 <= i < j < |chain|
      ensures chain[i] != chain[j]
    {
      if i > 0 {
        assert rank[chain[i]] > rank[chain[j]];
      }
    }
  }

  /** The search field as the source leaves it: every cell keeps its distances
      and parent, the path cells are BEST and all others UNKNOWN. */
  function Overlay(width: int, height: int, cells: map<Vec2, SearchCell>, path: seq<Vec2>): (o: Field<SearchCell>)
    requires width > 0 && height > 0
    ensures Valid(o) && o.width == width && o.height == height
    ensures forall q :: InBounds(width, height, q) ==>
      GetCellAt(o, q).value == At(cells, q).(state := if q in path then Best else Unknown)
  {
    var fill := (q: Vec2) => Cell(None, At(cells, q).(state := if q in path then Best else Unknown));
    New(width, height, fill)
  }

  /** What a finished search promises about its result. */
  ghost predicate Answers(field: Field<InputCell>, start: Vec2, target: Vec2, r: SearchResult<SearchCell>) {
    && r.target == target && r.path == None
    && (r.promise != [] ==> IsPath(field, r.promise, start, target) && NoDups(r.promise))
    && (forall i :: 0 <= i < |r.promise| ==> InBounds(field.width, field.height, r.promise[i]))
    && (r.promise == [] ==> forall path :: !IsPath(field, path, start, target))
    && (start == target ==> r.promise == [start])
    && Valid(r.overlay)
    && r.overlay.width == field.width && r.overlay.height == field.height
    && (forall q :: InBounds(field.width, field.height, q) ==>
          GetCellAt(r.overlay, q).value.state == (if q in r.promise then Best else Unknown))
    && (forall i :: 0 < i < |r.promise| ==>
          GetCellAt(r.overlay, r.promise[i]).value.parent == Some(r.promise[i - 1]))
  }

  /** A* from `input.start` to `input.target` (AStar.ts, `pathfind`). The
      result is pending (its `path` is `None`); the path the search found is
      its `promise`: a walk of king's steps over walkable cells from the start
      to the target without repeats, or empty exactly when no such walk exists. */
  method Pathfind(input: Input, m: Metrics) returns (r: SearchResult<SearchCell>)
    requires Valid(input.field) && HasCellAt(input.field, input.start)
    ensures r.target == input.target && r.path == None
    ensures r.promise != [] ==> IsPath(input.field, r.promise, input.start, input.target)
    ensures r.promise != [] ==> NoDups(r.promise)
    ensures forall i :: 0 <= i < |r.promise| ==> InBounds(input.field.width, input.field.height, r.promise[i])
    ensures r.promise == [] ==> forall path :: !IsPath(input.field, path, input.start, input.target)
    ensures input.start == input.target ==> r.promise == [input.start]
    ensures Valid(r.overlay)
    ensures r.overlay.width == input.field.width && r.overlay.height == input.field.height
    ensures forall q :: InBounds(r.overlay.width, r.overlay.height, q) ==>
      GetCellAt(r.overlay, q).value.state == (if q in r.promise then Best else Unknown)
    ensures forall i :: 0 < i < |r.promise| ==>
      GetCellAt(r.overlay, r.promise[i]).value.parent == Some(r.promise[i - 1])
  {
    var field, start, target := input.field, input.start, input.target;
    var h := input.base.heuristic;
    var s := Search([start], {}, map[]);
    ghost var rank: map<Vec2, nat> := map[];
    while |s.open| > 0
      invariant Inv(field, start, target, s, rank)
      invariant start == target ==> s.closed == {}
      decreases Coords(field.width, field.height) - s.closed
    {
      var k := SelectBest(s.open, s.cells);
      if s.open[k] == target {
        r := Found(field, start, target, s, rank);
        return;
      }
      s, rank := ExpandBest(field, start, target, h, m, s, rank, k);
    }
    NothingReachable(field, start, target, s, rank);
    r := SearchResult(Overlay(field.width, field.height, s.cells, []), target, [], None);
  }

  /** One round of the main loop whose best open cell `s.open[k]` is not the
      target: take it out of the open list, relax its neighbours, close it. */
  method ExpandBest(field: Field<InputCell>, start: Vec2, target: Vec2, h: Heuristic, m: Metrics,
                    s: Search, ghost rank: map<Vec2, nat>, k: nat) returns (s': Search, ghost rank': map<Vec2, nat>)
    requires Valid(field) && Inv(field, start, target, s, rank) && k < |s.open|
    requires s.open[k] != target && start != target
    ensures Inv(field, start, target, s', rank')
    ensures s.open[k] !in s.closed && s.open[k] in Coords(field.width, field.height)
    ensures s'.closed == s.closed + {s.open[k]}
  {
    var best := s.open[k];
    var expanding := s.(open := Without(s.open, best));
    OpenedBest(field, start, target, s, rank, k);
    var expanded, moved := Expand(field, start, target, h, m, expanding, rank, best);
    CloseKeeps(field, start, target, expanded, rank, best);
    InCoords(field.width, field.height, best);
    s' := Close(expanded, best);
    rank' := rank[best := |expanded.closed|];
  }

  /** The target was picked as the best open cell: walk the parents back,
      reverse, and mark the path on the search field. */
  method Found(field: Field<InputCell>, start: Vec2, target: Vec2, s: Search, ghost rank: map<Vec2, nat>)
    returns (r: SearchResult<SearchCell>)
    requires Valid(field) && Inv(field, start, target, s, rank) && target in s.open
    requires start == target ==> s.closed == {}
    ensures Answers(field, start, target, r)
  {
    ghost var k :| 0 <= k < |s.open| && s.open[k] == target;
    assert Reached(field, start, s.cells, s.open[k], s.closed + {});
    var chain := Reconstruct(field, start, target, s, rank);
    var promise := Reverse(chain);
    r := SearchResult(Overlay(field.width, field.height, s.cells, promise), target, promise, None);
    FoundAnswers(field, start, target, s, chain, r);
  }

  /** The result `Found` builds from the parent chain answers the search. */
  lemma {:induction false} FoundAnswers(field: Field<InputCell>, start: Vec2, target: Vec2, s: Search, chain: seq<Vec2>,
                     r: SearchResult<SearchCell>)
    requires Valid(field) && Placed(field, s) && target in s.open
    requires start == target ==> s.closed == {}
    requires |chain| > 0 && chain[0] == target && chain[|chain| - 1] == start
    requires ParentChain(field, s.cells, chain) && NoDups(chain)
    requires forall i :: 0 < i < |chain| ==> chain[i] in s.closed
    requires r == SearchResult(Overlay(field.width, field.height, s.cells, Reverse(chain)), target, Reverse(chain), None)
    ensures Answers(field, start, target, r)
  {
    ChainIsPath(field, start, target, s, chain);
    OverlayParents(field, s.cells, chain, r.overlay);
  }

  /** The reversed chain of parents from an open target is a repeat-free walk
      inside the field from the start to the target, and just the start when
      the two coincide. */
  lemma {:induction false} ChainIsPath(field: Field<InputCell>, start: Vec2, target: Vec2, s: Search, chain: seq<Vec2>)
    requires Placed(field, s) && target in s.open
    requires start == target ==> s.closed == {}
    requires |chain| > 0 && chain[0] == target && chain[|chain| - 1] == start
    requires ParentChain(field, s.cells, chain) && NoDups(chain)
    requires forall i :: 0 < i < |chain| ==> chain[i] in s.closed
    ensures var promise := Reverse(chain);
      && IsPath(field, promise, start, target) && NoDups(promise)
      && (forall i :: 0 <= i < |promise| ==> InBounds(field.width, field.height, promise[i]))
      && (start == target ==> promise == [start])
  {
    var promise := Reverse(chain);
    ReversedWalk(field, start, target, s.cells, chain);
    ReverseNoDups(chain);
    if start == target {
      assert |chain| == 1;
      assert promise == [start];
    }
    forall i | 0 <= i < |promise|
      ensures InBounds(field.width, field.height, promise[i])
    {
      var j := |chain| - 1 - i;
      assert promise[i] == chain[j];
      if j > 0 {
        assert chain[j] in s.closed;
      }
    }
  }

  /** The reversed parent chain walks from the start to the target. */
  lemma ReversedWalk(field: Field<InputCell>, start: Vec2, target: Vec2, cells: map<Vec2, SearchCell>, chain: seq<Vec2>)
    requires |chain| > 0 && chain[0] == target && chain[|chain| - 1] == start
    requires ParentChain(field, cells, chain)
    ensures IsPath(field, Reverse(chain), start, target)
  {
    var promise := Reverse(chain);
    var n := |chain|;
    forall i | 0 < i < n
      ensures Walkable(field, promise[i]) && Adjacent(promise[i - 1], promise[i])
    {
      assert promise[i] == chain[n - 1 - i] && promise[i - 1] == chain[n - 1 - i + 1];
    }
  }

  /** On the final search field, each path cell after the first has the
      previous path cell as its parent. */
  lemma OverlayParents(field: Field<InputCell>, cells: map<Vec2, SearchCell>, chain: seq<Vec2>, overlay: Field<SearchCell>)
    requires Valid(field) && |chain| > 0 && ParentChain(field, cells, chain)
    requires forall i :: 0 <= i < |chain| ==> InBounds(field.width, field.height, chain[i])
    requires Valid(overlay) && overlay.width == field.width && overlay.height == field.height
    requires forall q :: InBounds(field.width, field.height, q) ==>
      GetCellAt(overlay, q).value.parent == At(cells, q).parent
    ensures var promise := Reverse(chain);
      forall i :: 0 < i < |promise| ==>
        GetCellAt(overlay, promise[i]).value.parent == Some(promise[i - 1])
  {
    var promise := Reverse(chain);
    var n := |chain|;
    forall i | 0 < i < n
      ensures GetCellAt(overlay, promise[i]).value.parent == Some(promise[i - 1])
    {
      var j := n - 1 - i;
      assert promise[i] == chain[j] && promise[i - 1] == chain[j + 1];
      assert InBounds(field.width, field.height, chain[j]);
    }
  }

  /** Marks the expanded cell closed (AStar.ts, after the neighbour loop). */
  function Close(s: Search, best: Vec2): (r: Search)
    ensures r.open == s.open && r.closed == s.closed + {best}
    ensures At(r.cells, best) == At(s.cells, best).(state := Closed)
    ensures forall x :: x != best ==> At(r.cells, x) == At(s.cells, x)
  {
    Search(s.open, s.closed + {best}, s.cells[best := At(s.cells, best).(state := Closed)])
  }

  lemma InCoords(width: int, height: int, p: Vec2)
    requires InBounds(width, height, p)
    ensures p in Coords(width, height)
  {
    assert p == Vec2(p.x, p.y);
  }

  /** Taking the best cell out of the open list sets up the expansion's precondition. */
  lemma OpenedBest(field: Field<InputCell>, start: Vec2, target: Vec2, s: Search, rank: map<Vec2, nat>, k: int)
    requires Inv(field, start, target, s, rank) && 0 <= k < |s.open|
    ensures var best := s.open[k];
      var e := s.(open := Without(s.open, best));
      && InBounds(field.width, field.height, best)
      && Placed(field, e) && best !in e.open && best !in e.closed
      && (start in e.closed || best == start)
      && Reached(field, start, e.cells, best, e.closed)
      && Linked(field, start, e, rank, {best})
      && Frontier(field, e, {best})
  {
    var best := s.open[k];
    var e := s.(open := Without(s.open, best));
    assert Reached(field, start, s.cells, s.open[k], s.closed + {});
    OpenedLinked(field, start, s, rank, k);
    OpenedFrontier(field, s, k);
  }

  /** Taking `s.open[k]` out of the open list keeps the other open cells
      hanging off closed cells, now with `s.open[k]` as the extra parent. */
  lemma {:induction false} OpenedLinked(field: Field<InputCell>, start: Vec2, s: Search, rank: map<Vec2, nat>, k: int)
    requires NoDups(s.open) && Linked(field, start, s, rank, {}) && 0 <= k < |s.open|
    ensures Linked(field, start, s.(open := Without(s.open, s.open[k])), rank, {s.open[k]})
  {
    OpenedReached(field, start, s.cells, s.open, k, s.closed);
  }

  /** Every cell left in the open list after taking out `open[k]` is still
      reached, now counting `open[k]` among the parents. */
  lemma {:induction false} OpenedReached(field: Field<InputCell>, start: Vec2, cells: map<Vec2, SearchCell>,
                                         open: seq<Vec2>, k: int, parents: set<Vec2>)
    requires NoDups(open) && 0 <= k < |open|
    requires forall i :: 0 <= i < |open| ==> Reached(field, start, cells, open[i], parents + {})
    ensures forall i :: 0 <= i < |Without(open, open[k])| ==>
      Reached(field, start, cells, Without(open, open[k])[i], parents + {open[k]})
  {
    var rest := Without(open, open[k]);
    WithoutSingle(open, k);
    forall i | 0 <= i < |rest|
      ensures Reached(field, start, cells, rest[i], parents + {open[k]})
    {
      var j := if i < k then i else i + 1;
      if i < k {
        assert rest[i] == open[..k][i];
      } else {
        assert rest[i] == open[k+1..][i - k];
      }
      assert Reached(field, start, cells, open[j], parents + {});
    }
  }

  /** Taking `s.open[k]` out of the open list keeps every walkable neighbour
      of a closed cell discovered, counting `s.open[k]` itself. */
  lemma {:induction false} OpenedFrontier(field: Field<InputCell>, s: Search, k: int)
    requires Frontier(field, s, {}) && 0 <= k < |s.open|
    ensures Frontier(field, s.(open := Without(s.open, s.open[k])), {s.open[k]})
  {
    var best := s.open[k];
    var e := s.(open := Without(s.open, best));
    forall c, q | c in e.closed && Adjacent(c, q) && Walkable(field, q)
      ensures q in e.open || q in e.closed || q == best
    {
      assert q in s.open || q in s.closed;
      if q in s.open && q != best {
        var j :| 0 <= j < |s.open| && s.open[j] == q;
      }
    }
  }

  /** Closing the expanded cell restores the main loop's invariant. */
  lemma CloseKeeps(field: Field<InputCell>, start: Vec2, target: Vec2, s: Search, rank: map<Vec2, nat>, best: Vec2)
    requires best != target && target !in s.closed
    requires InBounds(field.width, field.height, best)
    requires Placed(field, s) && best !in s.open && best !in s.closed
    requires start in s.closed || best == start
    requires Reached(field, start, s.cells, best, s.closed)
    requires Linked(field, start, s, rank, {best})
    requires Frontier(field, s, {best})
    requires forall q :: Adjacent(best, q) && Walkable(field, q) ==> q in s.open || q in s.closed
    ensures Inv(field, start, target, Close(s, best), rank[best := |s.closed|])
  {
    var c := Close(s, best);
    var rank' := rank[best := |s.closed|];
    assert |c.closed| == |s.closed| + 1;
    forall i | 0 <= i < |c.open|
      ensures Reached(field, start, c.cells, c.open[i], c.closed)
    {
      assert Reached(field, start, s.cells, s.open[i], s.closed + {best});
    }
    forall q | q in c.closed
      ensures Reached(field, start, c.cells, q, c.closed)
    {
      if q != best {
        assert Reached(field, start, s.cells, q, s.closed);
      }
    }
    forall q | q in c.closed && q != start
      ensures rank'[At(c.cells, q).parent.value] < rank'[q]
    {
      if q != best {
        assert Reached(field, start, s.cells, q, s.closed);
      }
    }
    assert Linked(field, start, c, rank', {});
  }

  /** With the open list empty, the closed cells are all the search could
      reach, and the target is not among them. */
  lemma NothingReachable(field: Field<InputCell>, start: Vec2, target: Vec2, s: Search, rank: map<Vec2, nat>)
    requires Inv(field, start, target, s, rank) && s.open == []
    ensures forall path :: !IsPath(field, path, start, target)
  {
    forall path | IsPath(field, path, start, target)
      ensures path[|path| - 1] in s.closed
    {
      AllClosed(field, start, target, s, rank, path, |path| - 1);
    }
  }

  lemma {:induction false} AllClosed(field: Field<InputCell>, start: Vec2, target: Vec2, s: Search,
                                     rank: map<Vec2, nat>, path: seq<Vec2>, i: int)
    requires Inv(field, start, target, s, rank) && s.open == []
    requires IsPath(field, path, start, target) && 0 <= i < |path|
    ensures path[i] in s.closed
    decreases i
  {
    if i > 0 {
      AllClosed(field, start, target, s, rank, path, i - 1);
      assert Adjacent(path[i - 1], path[i]) && Walkable(field, path[i]);
    }
  }
}
