/**
 The vocabulary of Pathfinding.ts: the search settings an agent carries, the
 walkability field a search reads, and the result a search hands back.

 A result's path is filled in asynchronously in the source. Here a result
 carries the path the search computed (`promise`) and a `path` that stays
 `None` until `Resolve` is applied, which is the moment the source's promise
 callback stores it.
 */
module PathfindingTypes {
  import opened Nullable
  import opened Vector2
  import opened Fields

  datatype Heuristic = Manhattan | Diagonal | Euclidean

  datatype Algorithm = AStarSearch

  /** `TInputBase`: per-agent search settings. */
  datatype InputBase = InputBase(isUsingDelay: bool, heuristic: Heuristic, algorithm: Algorithm)

  /** The three setters of `TInputBase`: each changes its own setting only, so
      they commute with one another. */
  function SetIsUsingDelay(b: InputBase, isUsingDelay: bool): (r: InputBase)
    ensures r.isUsingDelay == isUsingDelay
    ensures r.heuristic == b.heuristic && r.algorithm == b.algorithm
  {
    b.(isUsingDelay := isUsingDelay)
  }

  function SetHeuristic(b: InputBase, heuristic: Heuristic): (r: InputBase)
    ensures r.heuristic == heuristic
    ensures r.isUsingDelay == b.isUsingDelay && r.algorithm == b.algorithm
  {
    b.(heuristic := heuristic)
  }

  function SetAlgorithm(b: InputBase, algorithm: Algorithm): (r: InputBase)
    ensures r.algorithm == algorithm
    ensures r.isUsingDelay == b.isUsingDelay && r.heuristic == b.heuristic
  {
    b.(algorithm := algorithm)
  }

  /** Whatever order the settings are changed in, the result is the same. */
  lemma SettersCommute(b: InputBase, d: bool, h: Heuristic, a: Algorithm)
    ensures SetHeuristic(SetIsUsingDelay(b, d), h) == SetIsUsingDelay(SetHeuristic(b, h), d)
    ensures SetAlgorithm(SetHeuristic(b, h), a) == SetHeuristic(SetAlgorithm(b, a), h)
    ensures SetAlgorithm(SetIsUsingDelay(b, d), a) == SetIsUsingDelay(SetAlgorithm(b, a), d)
  {
  }

  /** `TInputCell`. */
  datatype InputCell = InputCell(isWalkable: bool)

  /** `setIsWalkable` on a placed cell: the position stays. */
  function SetIsWalkable(c: Cell<InputCell>, isWalkable: bool): (r: Cell<InputCell>)
    ensures r.position == c.position && r.value.isWalkable == isWalkable
  {
    Cell(c.position, InputCell(isWalkable))
  }

  /** `TInput`: the field, the two endpoints and the settings. The global pause
      promise and step delay only pace the search and are not modelled. */
  datatype Input = Input(field: Field<InputCell>, start: Vec2, target: Vec2, base: InputBase)

  /** `TResult`: the search's own cell field, the target it searched for, the
      path it computed and the path as published so far. */
  datatype SearchResult<C> = SearchResult(
    overlay: Field<C>,
    target: Vec2,
    promise: seq<Vec2>,
    path: Option<seq<Vec2>>)

  /** The promise callback: the computed path becomes visible; nothing else changes. */
  function Resolve<C>(r: SearchResult<C>): (s: SearchResult<C>)
    requires r.path.None?
    ensures s.path == Some(r.promise)
    ensures s.overlay == r.overlay && s.target == r.target && s.promise == r.promise
  {
    r.(path := Some(r.promise))
  }

  /** A cell a search may step on: inside the field and marked walkable. */
  predicate Walkable(f: Field<InputCell>, p: Vec2) {
    HasCellAt(f, p) && GetCellAt(f, p).value.isWalkable
  }

  /** A walk through the field: it starts at `from`, ends at `to`, moves one
      king's step at a time and enters walkable cells only (the starting cell
      itself is not checked, as the search does not check it). */
  ghost predicate IsPath(f: Field<InputCell>, path: seq<Vec2>, from: Vec2, to: Vec2) {
    && |path| > 0
    && path[0] == from
    && path[|path| - 1] == to
    && (forall i :: 0 < i < |path| ==> Walkable(f, path[i]))
    && (forall i :: 0 < i < |path| ==> Adjacent(path[i - 1], path[i]))
  }
}
