/**
 Pathfinding.ts, `pathfind`: run the algorithm the agent's settings select.
 A* is the only algorithm the source offers.
 */
module PathfindingDispatch {
  import opened Fields
  import opened PathfindingTypes
  import AStar

  /** Dispatch on `input.base.algorithm`; the result is whatever that search promises. */
  method Pathfind(input: Input, m: AStar.Metrics) returns (r: SearchResult<AStar.SearchCell>)
    requires Valid(input.field) && HasCellAt(input.field, input.start)
    ensures AStar.Answers(input.field, input.start, input.target, r)
  {
    match input.base.algorithm
    case AStarSearch =>
      r := AStar.Pathfind(input, m);
  }
}
