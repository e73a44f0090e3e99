/**
 World.ts: a field of wall cells, the agent collection, one record per agent
 (its search settings, last search result and status) and the pause flag;
 plus the two procedures that drive the simulation: deciding whether an
 agent's last path is stale and searching again, and the periodic step that
 moves every agent one cell along its path.

 The step is a method here, called once per tick; the timer that calls it,
 the awaits and the update event are not modelled. A search with delay on
 finishes later, at a `ResolveSearch` event.
 */
module Worlds {
  import opened Nullable
  import opened Vector2
  import opened Seqs
  import opened Fields
  import opened Agents
  import opened AgentCollections
  import opened PathfindingTypes
  import opened AStar
  import PathfindingDispatch

  /** `TCell` of the world: a wall or not. */
  datatype WorldCell = WorldCell(isWall: bool)

  /** `setIsWall`: the position stays. */
  function SetIsWall(c: Cell<WorldCell>, isWall: bool): (r: Cell<WorldCell>)
    ensures r.position == c.position && r.value.isWall == isWall
  {
    Cell(c.position, WorldCell(isWall))
  }

  datatype AgentStatus = Pathfinding | Waiting | Moving

  /** `TAgentRecord`. */
  datatype AgentRecord = AgentRecord(
    base: InputBase,
    lastResult: Option<SearchResult<SearchCell>>,
    lastStatus: Option<AgentStatus>,
    status: Option<AgentStatus>)

  /** The settings a record is created with: no delay, Euclidean, A*. */
  const DefaultBase := InputBase(false, Euclidean, AStarSearch)

  /** `setStatus`: the current status becomes the last one. */
  function SetStatus(r: AgentRecord, status: AgentStatus): (r': AgentRecord)
    ensures r'.status == Some(status) && r'.lastStatus == r.status
    ensures r'.base == r.base && r'.lastResult == r.lastResult
  {
    r.(lastStatus := r.status, status := Some(status))
  }

  /** Only one status back is remembered. */
  lemma StatusHistoryIsOneDeep(r: AgentRecord, s1: AgentStatus, s2: AgentStatus)
    ensures SetStatus(SetStatus(r, s1), s2).lastStatus == Some(s1)
    ensures SetStatus(SetStatus(r, s1), s2).status == Some(s2)
  {
  }

  datatype World = World(
    field: Field<WorldCell>,
    agents: AgentCollection,
    records: map<AgentRef, AgentRecord>,
    isPaused: bool)

  function Position(w: World, a: AgentRef): Vec2
    requires a < |w.agents.objects|
  {
    w.agents.objects[a].position
  }

  /** What a stored search result looks like: its path lies in the field, has
      no repeats, moves in king's steps and ends at the result's target; once
      published it is the computed path. */
  ghost predicate ResultFits(field: Field<WorldCell>, res: SearchResult<SearchCell>) {
    && (forall i :: 0 <= i < |res.promise| ==> InBounds(field.width, field.height, res.promise[i]))
    && NoDups(res.promise)
    && (res.promise != [] ==> res.promise[|res.promise| - 1] == res.target)
    && (forall i :: 0 < i < |res.promise| ==> Adjacent(res.promise[i - 1], res.promise[i]))
    && (res.path.Some? ==> res.path.value == res.promise)
  }

  /** The world's invariant: a well-formed field and collection, every live
      agent inside the field, every stored result well formed. */
  ghost predicate Valid(w: World) {
    && Fields.Valid(w.field)
    && AgentCollections.Valid(w.agents)
    && (forall i :: 0 <= i < |w.agents.agents| ==>
          InBounds(w.field.width, w.field.height, Position(w, w.agents.agents[i])))
    && (forall a :: a in w.records && w.records[a].lastResult.Some? ==>
          ResultFits(w.field, w.records[a].lastResult.value))
  }

  /** The constructor: both sides positive, no walls, no agents, running. */
  function NewWorld(width: int, height: int): (w: World)
    requires width > 0 && height > 0
    ensures Valid(w)
    ensures w.field.width == width && w.field.height == height
    ensures forall q :: InBounds(width, height, q) ==> !GetCellAt(w.field, q).value.isWall
    ensures w.agents.agents == [] && w.records == map[] && !w.isPaused
  {
    World(New(width, height, (q: Vec2) => Cell(None, WorldCell(false))), NewCollection(), map[], false)
  }

  /** `getAgentRecord`: the agent must be live; a record is made on first use. */
  function GetAgentRecord(w: World, a: AgentRef): (r: (AgentRecord, World))
    requires Has(w.agents, a)
    ensures a in r.1.records && r.1.records[a] == r.0
    ensures a in w.records ==> r.0 == w.records[a] && r.1 == w
    ensures a !in w.records ==> r.0 == AgentRecord(DefaultBase, None, None, None)
    ensures r.1 == w.(records := w.records[a := r.0])
    ensures Valid(w) ==> Valid(r.1)
  {
    if a in w.records then (w.records[a], w)
    else
      var record := AgentRecord(DefaultBase, None, None, None);
      (record, w.(records := w.records[a := record]))
  }

  /** Asking again returns the same record and changes nothing more. */
  lemma GetAgentRecordIsStable(w: World, a: AgentRef)
    requires Has(w.agents, a)
    ensures var (r1, w1) := GetAgentRecord(w, a);
      GetAgentRecord(w1, a) == (r1, w1)
  {
  }

  /** `setIsPaused` as far as the world's own state goes: the flag. */
  function SetIsPaused(w: World, isPaused: bool): (r: World)
    ensures r.isPaused == isPaused
    ensures r.field == w.field && r.agents == w.agents && r.records == w.records
    ensures Valid(w) ==> Valid(r)
  {
    w.(isPaused := isPaused)
  }

  /** A live agent other than `a` and other than the agent `a` chases stands at `p`. */
  predicate ThirdPartyAt(w: World, a: AgentRef, p: Vec2)
    requires Valid(w) && a < |w.agents.objects|
  {
    match SafeGetAt(w.agents, p)
    case None => false
    case Some(b) => b != a && w.agents.objects[a].target != Chase(b)
  }

  /** A cell agent `a` may not pass: a wall, or a third party on it. */
  predicate Obstructs(w: World, a: AgentRef, p: Vec2)
    requires Valid(w) && a < |w.agents.objects| && HasCellAt(w.field, p)
  {
    GetCellAt(w.field, p).value.isWall || ThirdPartyAt(w, a, p)
  }

  /** The walkability field built for a search by agent `a`: all walkable,
      then every wall and every cell of a third party made unwalkable. */
  function Mask(w: World, a: AgentRef): (m: Field<InputCell>)
    requires Valid(w) && a < |w.agents.objects|
    ensures Fields.Valid(m) && m.width == w.field.width && m.height == w.field.height
    ensures forall q :: InBounds(m.width, m.height, q) ==> (Walkable(m, q) <==> !Obstructs(w, a, q))
  {
    var open := New(w.field.width, w.field.height, (q: Vec2) => Cell(None, InputCell(true)));
    ForEachCell(open, (c: Cell<InputCell>) =>
      if c.position.Some? && HasCellAt(w.field, c.position.value)
      then InputCell(!Obstructs(w, a, c.position.value))
      else c.value)
  }

  function TargetPos(w: World, a: AgentRef): Vec2
    requires Valid(w) && a < |w.agents.objects|
  {
    TargetPosition(w.agents.objects, w.agents.objects[a])
  }

  /** The staleness test of `repathfindAgentIfNecessary`: search again when
      there is no result, when the target has moved, or when the published
      path is blocked anywhere or no longer passes through the agent. A search
      still running for the same target is left alone. */
  function ShouldRepathfind(w: World, a: AgentRef, last: Option<SearchResult<SearchCell>>): (r: bool)
    requires Valid(w) && a < |w.agents.objects|
    requires last.Some? && last.value.path.Some? ==>
      forall i :: 0 <= i < |last.value.path.value| ==>
        InBounds(w.field.width, w.field.height, last.value.path.value[i])
    ensures r <==>
      || last.None?
      || TargetPos(w, a) != last.value.target
      || (&& last.value.path.Some?
          && (|| Position(w, a) !in last.value.path.value
              || exists i :: 0 <= i < |last.value.path.value| && Obstructs(w, a, last.value.path.value[i])))
  {
    match last
    case None => true
    case Some(res) =>
      if TargetPos(w, a) != res.target then true
      else
        match res.path
        case None => false
        case Some(path) => ScanPath(w, a, path, 0, false)
  }

  /** The `for (let pos of path)` loop from index `i` on, with the flag it
      carries; it stops at the first blocked cell. */
  function ScanPath(w: World, a: AgentRef, path: seq<Vec2>, i: nat, isAtAnyPos: bool): (r: bool)
    requires Valid(w) && a < |w.agents.objects| && i <= |path|
    requires forall j :: 0 <= j < |path| ==> InBounds(w.field.width, w.field.height, path[j])
    ensures r <==>
      || (exists j :: i <= j < |path| && Obstructs(w, a, path[j]))
      || !(isAtAnyPos || Position(w, a) in path[i..])
    decreases |path| - i
  {
    if i == |path| then !isAtAnyPos
    else
      var at := isAtAnyPos || path[i] == Position(w, a);
      if Obstructs(w, a, path[i]) then true
      else
        var r := ScanPath(w, a, path, i + 1, at);
        assert path[i..] == [path[i]] + path[i + 1..];
        r
  }

  /** No third party on any cell of `path`. */
  ghost predicate Clear(w: World, a: AgentRef, path: seq<Vec2>)
    requires Valid(w) && a < |w.agents.objects|
  {
    forall i :: 0 <= i < |path| ==> !ThirdPartyAt(w, a, path[i])
  }

  /** What the nested `pathfind` leaves behind: the record holds a new result
      for the agent's current target, searched from where the agent stands on
      its masked field; without delay it is published and the status is
      WAITING, with delay it is pending and the status PATHFINDING. The path
      crosses no third party, and it is empty only when the mask has no walk
      from the agent to its target. Nothing but the record changes. */
  ghost predicate Replanned(w: World, a: AgentRef, w': World)
    requires Valid(w) && Has(w.agents, a) && a in w.records
  {
    && Valid(w')
    && w'.field == w.field && w'.agents == w.agents && w'.isPaused == w.isPaused
    && a in w'.records && w'.records == w.records[a := w'.records[a]]
    && (var before := w.records[a];
        var rec := w'.records[a];
        && rec.base == before.base
        && rec.lastResult.Some?
        && rec.lastResult.value.target == TargetPos(w, a)
        && (before.base.isUsingDelay ==>
              rec.lastResult.value.path == None && rec.status == Some(Pathfinding) && rec.lastStatus == before.status)
        && (!before.base.isUsingDelay ==>
              rec.lastResult.value.path == Some(rec.lastResult.value.promise) &&
              rec.status == Some(Waiting) && rec.lastStatus == Some(Pathfinding)))
    && (var path := w'.records[a].lastResult.value.promise;
        && (path != [] ==> path[0] == Position(w, a))
        && (forall i :: 0 < i < |path| ==> !Obstructs(w, a, path[i]))
        && Clear(w, a, path)
        && (path == [] ==> forall walk :: !IsPath(Mask(w, a), walk, Position(w, a), TargetPos(w, a))))
  }

  /** The nested `pathfind` of World.ts: status PATHFINDING, search on the
      masked field from the agent to its target, store the result; without
      delay the result is published at once and the status becomes WAITING. */
  method Replan(w: World, a: AgentRef, m: Metrics) returns (w': World)
    requires Valid(w) && Has(w.agents, a) && a in w.records
    ensures Replanned(w, a, w')
  {
    var rec := SetStatus(w.records[a], Pathfinding);
    var mask := Mask(w, a);
    var input := Input(mask, Position(w, a), TargetPos(w, a), rec.base);
    var result := PathfindingDispatch.Pathfind(input, m);
    if rec.base.isUsingDelay {
      rec := rec.(lastResult := Some(result));
    } else {
      rec := SetStatus(rec.(lastResult := Some(Resolve(result))), Waiting);
    }
    SearchIsClear(w, a, result);
    SearchFits(w, a, result);
    w' := Store(w, a, rec);
  }

  /** Storing a record whose result is well formed keeps the world well formed. */
  function Store(w: World, a: AgentRef, rec: AgentRecord): (r: World)
    requires Valid(w) && (rec.lastResult.Some? ==> ResultFits(w.field, rec.lastResult.value))
    ensures Valid(r) && r.records == w.records[a := rec]
    ensures r.field == w.field && r.agents == w.agents && r.isPaused == w.isPaused
  {
    w.(records := w.records[a := rec])
  }

  /** A path the search found on the agent's mask crosses no third party:
      its first cell is the agent's own, the others are walkable in the mask. */
  lemma SearchIsClear(w: World, a: AgentRef, result: SearchResult<SearchCell>)
    requires Valid(w) && Has(w.agents, a)
    requires Answers(Mask(w, a), Position(w, a), TargetPos(w, a), result)
    ensures forall i :: 0 < i < |result.promise| ==> !Obstructs(w, a, result.promise[i])
    ensures Clear(w, a, result.promise)
  {
    var path := result.promise;
    forall i | 0 <= i < |path|
      ensures !ThirdPartyAt(w, a, path[i])
    {
      if i == 0 {
        var k :| 0 <= k < |w.agents.agents| && w.agents.agents[k] == a;
        SafeGetAtIsTheOccupant(w.agents, path[0], k);
      } else {
        assert Walkable(Mask(w, a), path[i]);
      }
    }
  }

  /** A search on the agent's mask yields a result the world may store,
      pending or published. */
  lemma SearchFits(w: World, a: AgentRef, result: SearchResult<SearchCell>)
    requires Valid(w) && a < |w.agents.objects|
    requires Answers(Mask(w, a), Position(w, a), TargetPos(w, a), result)
    ensures ResultFits(w.field, result) && ResultFits(w.field, Resolve(result))
  {
    var mask := Mask(w, a);
    if result.promise != [] {
      assert IsPath(mask, result.promise, Position(w, a), TargetPos(w, a));
    }
  }

  /** What `repathfindAgentIfNecessary` does: the record is fetched (or made);
      a stale result is replaced by a fresh search, a current one is kept. */
  ghost predicate Refreshes(w: World, a: AgentRef, w': World)
    requires Valid(w) && Has(w.agents, a)
  {
    var (rec, w1) := GetAgentRecord(w, a);
    if ShouldRepathfind(w, a, rec.lastResult) then Replanned(w1, a, w') else w' == w1
  }

  /** `repathfindAgentIfNecessary`: fetch (or make) the record and search
      again if the last result is stale. Afterwards the record holds a result
      for the current target, and a published path crosses no third party. */
  method RepathfindIfNecessary(w: World, a: AgentRef, m: Metrics) returns (w': World)
    requires Valid(w) && Has(w.agents, a)
    ensures Refreshes(w, a, w')
    ensures Valid(w')
    ensures w'.field == w.field && w'.agents == w.agents && w'.isPaused == w.isPaused
    ensures a in w'.records && w'.records == w.records[a := w'.records[a]]
    ensures w'.records[a].base == GetAgentRecord(w, a).0.base
    ensures var res := w'.records[a].lastResult;
      && res.Some?
      && res.value.target == TargetPos(w', a)
      && (res.value.path.Some? ==> Clear(w', a, res.value.path.value))
  {
    var (rec, w1) := GetAgentRecord(w, a);
    if ShouldRepathfind(w, a, rec.lastResult) {
      w' := Replan(w1, a, m);
    } else {
      w' := w1;
    }
    RefreshedRecord(w, a, w');
  }

  /** After a refresh the world is well formed, only the agent's record has
      changed, its settings are kept, and it holds a result for the agent's
      current target whose published path crosses no third party. */
  lemma RefreshedRecord(w: World, a: AgentRef, w': World)
    requires Valid(w) && Has(w.agents, a) && Refreshes(w, a, w')
    ensures Valid(w')
    ensures w'.field == w.field && w'.agents == w.agents && w'.isPaused == w.isPaused
    ensures a in w'.records && w'.records == w.records[a := w'.records[a]]
    ensures w'.records[a].base == GetAgentRecord(w, a).0.base
    ensures var res := w'.records[a].lastResult;
      && res.Some?
      && res.value.target == TargetPos(w', a)
      && (res.value.path.Some? ==> Clear(w', a, res.value.path.value))
  {
    var (rec, w1) := GetAgentRecord(w, a);
    if ShouldRepathfind(w, a, rec.lastResult) {
      ReplannedRecord(w1, a, w');
      assert w'.records == w.records[a := w'.records[a]];
    } else {
      KeptPathIsClear(w1, a, rec.lastResult.value);
    }
  }

  /** The record a search leaves behind is for the current target, and its
      published path, if any, crosses no third party. */
  lemma ReplannedRecord(w: World, a: AgentRef, w': World)
    requires Valid(w) && Has(w.agents, a) && a in w.records && Replanned(w, a, w')
    ensures Valid(w')
    ensures w'.field == w.field && w'.agents == w.agents && w'.isPaused == w.isPaused
    ensures a in w'.records && w'.records == w.records[a := w'.records[a]]
    ensures w'.records[a].base == w.records[a].base
    ensures var res := w'.records[a].lastResult;
      && res.Some?
      && res.value.target == TargetPos(w', a)
      && (res.value.path.Some? ==> Clear(w', a, res.value.path.value))
  {
    var res := w'.records[a].lastResult.value;
    assert TargetPos(w', a) == TargetPos(w, a);
    if res.path.Some? {
      assert res.path.value == res.promise;
      assert Clear(w, a, res.promise);
    }
  }

  /** A result the staleness test keeps is for the current target, and its
      published path, if any, crosses no third party. */
  lemma KeptPathIsClear(w: World, a: AgentRef, res: SearchResult<SearchCell>)
    requires Valid(w) && a < |w.agents.objects| && ResultFits(w.field, res)
    requires !ShouldRepathfind(w, a, Some(res))
    ensures res.target == TargetPos(w, a)
    ensures res.path.Some? ==> Clear(w, a, res.path.value)
  {
    if res.path.Some? {
      forall i | 0 <= i < |res.path.value|
        ensures !ThirdPartyAt(w, a, res.path.value[i])
      {
        assert !Obstructs(w, a, res.path.value[i]);
      }
    }
  }

  /** The position the step loop moves agent `a` to along `path`: drop the
      last cell when chasing an agent (that agent stands there), find the
      agent's own cell, and take the next one, if any. */
  function NextPosition(w: World, a: AgentRef, path: seq<Vec2>): (r: Option<Vec2>)
    requires Valid(w) && a < |w.agents.objects|
    ensures r.Some? <==>
      exists k :: 0 <= k < |path| - 1 && path[k] == Position(w, a) &&
        (w.agents.objects[a].target.Chase? ==> k < |path| - 2)
    ensures r.Some? ==>
      exists k :: 0 <= k < |path| - 1 && path[k] == Position(w, a) && r.value == path[k + 1] &&
        (w.agents.objects[a].target.Chase? ==> k < |path| - 2) &&
        Position(w, a) !in path[..k]
  {
    var trimmed := if w.agents.objects[a].target.Chase? && |path| > 0 then path[..|path| - 1] else path;
    var k := IndexOf(trimmed, Position(w, a));
    if k == -1 || k == |trimmed| - 1 then None
    else
      assert trimmed[..k] == path[..k];
      Some(trimmed[k + 1])
  }

  /** The collision argument of the step loop: on a published, clear path to
      the agent's current target, the next cell is free, inside the field and
      one king's step away. */
  lemma NextCellIsFree(w: World, a: AgentRef, res: SearchResult<SearchCell>)
    requires Valid(w) && Has(w.agents, a) && ResultFits(w.field, res)
    requires res.target == TargetPos(w, a) && Clear(w, a, res.promise)
    requires NextPosition(w, a, res.promise).Some?
    ensures var next := NextPosition(w, a, res.promise).value;
      && !HasAt(w.agents, next)
      && InBounds(w.field.width, w.field.height, next)
      && Adjacent(Position(w, a), next)
  {
    var path := res.promise;
    var next := NextPosition(w, a, path).value;
    var k :| 0 <= k < |path| - 1 && path[k] == Position(w, a) && next == path[k + 1] &&
      (w.agents.objects[a].target.Chase? ==> k < |path| - 2);
    assert !ThirdPartyAt(w, a, path[k + 1]);
  }

  /** The completion of a delayed search: the path is published and the
      status becomes WAITING. */
  function ResolveSearch(w: World, a: AgentRef): (r: World)
    requires a in w.records && w.records[a].lastResult.Some? && w.records[a].lastResult.value.path.None?
    ensures a in r.records && r.records[a].lastResult == Some(Resolve(w.records[a].lastResult.value))
    ensures r.records[a].status == Some(Waiting) && r.records[a].lastStatus == w.records[a].status
    ensures r.records == w.records[a := r.records[a]]
    ensures r.field == w.field && r.agents == w.agents && r.isPaused == w.isPaused
    ensures Valid(w) ==> Valid(r)
  {
    var rec := w.records[a];
    w.(records := w.records[a := SetStatus(rec.(lastResult := Some(Resolve(rec.lastResult.value))), Waiting)])
  }

  /** What a tick did: nothing (paused), nothing moved because some search
      was still running, or a full step. */
  datatype Outcome = Paused | Unresolved | Stepped

  /** Agent `a`'s search has started but its path is not published yet. */
  predicate Pending(w: World, a: AgentRef) {
    a in w.records && w.records[a].lastResult.Some? && w.records[a].lastResult.value.path.None?
  }

  /** The step loop body of World.ts. When paused, nothing happens. Otherwise
      the agents' paths are refreshed in list order, from `pass[0]` to `mid`;
      if some search is still running the tick ends there, right after that
      agent's refresh; else each agent in turn
      takes a `Turn` from `steps[i]` to `steps[i + 1]`. Agents never collide,
      every agent moves at most one king's step, and deleted agents stay put. */
  method Tick(w: World, m: Metrics)
    returns (w': World, outcome: Outcome, ghost pass: seq<World>, ghost mid: World,
             ghost steps: seq<World>, ghost refreshed: seq<World>)
    requires Valid(w)
    ensures Valid(w')
    ensures outcome == Paused <==> w.isPaused
    ensures outcome == Paused ==> w' == w
    ensures w'.field == w.field && w'.isPaused == w.isPaused
    ensures w'.agents.agents == w.agents.agents && |w'.agents.objects| == |w.agents.objects|
    ensures w'.agents.ids == w.agents.ids && w'.agents.topId == w.agents.topId
    ensures forall r :: 0 <= r < |w.agents.objects| ==>
      Chebyshev(w.agents.objects[r].position, w'.agents.objects[r].position) <= 1
    ensures forall r :: 0 <= r < |w.agents.objects| && r !in w.agents.agents ==>
      w'.agents.objects[r] == w.agents.objects[r]
    ensures outcome != Paused ==>
      && Valid(mid) && mid.field == w.field && mid.agents == w.agents && mid.isPaused == w.isPaused
      && (outcome == Stepped <==> forall a :: a in w.agents.agents ==> !Pending(mid, a))
    ensures outcome != Paused ==>
      && 0 < |pass| && Refreshed(pass, w.agents.agents, |pass| - 1)
      && pass[0] == w && pass[|pass| - 1] == mid
      && (outcome == Stepped ==> |pass| - 1 == |w.agents.agents|)
      && (forall j :: 0 <= j < |pass| - 1 && (outcome == Stepped || j < |pass| - 2) ==>
            !Pending(pass[j + 1], w.agents.agents[j]))
    ensures outcome == Unresolved ==> 1 < |pass| && Pending(mid, w.agents.agents[|pass| - 2])
    ensures outcome == Unresolved ==> w' == mid
    ensures outcome == Stepped ==> forall a :: a in w.agents.agents ==>
      && a in mid.records && mid.records[a].lastResult.Some?
      && mid.records[a].lastResult.value.target == TargetPos(mid, a)
    ensures outcome == Stepped ==>
      && Turns(steps, w.agents.agents, refreshed, |w.agents.agents|)
      && steps[0] == mid && steps[|w.agents.agents|] == w'
  {
    pass, mid, steps, refreshed := [w], w, [], [];
    if w.isPaused {
      return w, Paused, pass, mid, steps, refreshed;
    }
    var w1, resolved;
    ghost var n;
    w1, resolved, pass, n := FirstPass(w, m);
    mid := w1;
    if !resolved {
      return w1, Unresolved, pass, mid, steps, refreshed;
    }
    w', steps, refreshed := SecondPass(w1, m);
    outcome := Stepped;
  }

  /** The first loop of the step: refresh the agents' paths in list order,
      `pre[j]` to `pre[j + 1]` for the `j`-th agent, stopping right after the
      first agent whose search is still running. `resolved` tells whether
      the loop ran to the end, which is exactly when no live agent's search
      is pending; then every live agent has a result for its current target. */
  method FirstPass(w: World, m: Metrics) returns (w': World, resolved: bool, ghost pre: seq<World>, n: nat)
    requires Valid(w)
    ensures Valid(w') && w'.field == w.field && w'.agents == w.agents && w'.isPaused == w.isPaused
    ensures |pre| == n + 1 && Refreshed(pre, w.agents.agents, n) && pre[0] == w && pre[n] == w'
    ensures resolved ==> n == |w.agents.agents|
    ensures !resolved ==> 0 < n && Pending(w', w.agents.agents[n - 1])
    ensures forall j :: 0 <= j < n && (resolved || j < n - 1) ==> !Pending(pre[j + 1], w.agents.agents[j])
    ensures resolved <==> forall a :: a in w.agents.agents ==> !Pending(w', a)
    ensures resolved ==> forall a :: a in w.agents.agents ==>
      && a in w'.records && w'.records[a].lastResult.Some?
      && w'.records[a].lastResult.value.target == TargetPos(w', a)
  {
    w', pre, n := w, [w], 0;
    while n < |w.agents.agents|
      invariant PassSoFar(w, w', pre, n)
    {
      var stop;
      w', pre, stop := PassStep(w, w', pre, n, m);
      n := n + 1;
      if stop {
        return w', false, pre, n;
      }
    }
    resolved := true;
  }

  /** What the first loop keeps once `n` agents have been refreshed: the run
      of refreshes so far, and every agent refreshed so far holds a published
      path for its current target. */
  ghost predicate PassSoFar(w: World, w': World, pre: seq<World>, n: nat) {
    && Valid(w') && w'.field == w.field && w'.agents == w.agents && w'.isPaused == w.isPaused
    && n <= |w.agents.agents| && |pre| == n + 1
    && Refreshed(pre, w.agents.agents, n) && pre[0] == w && pre[n] == w'
    && (forall j :: 0 <= j < n ==> Settled(w', w.agents.agents[j]))
    && (forall j :: 0 <= j < n ==> !Pending(pre[j + 1], w.agents.agents[j]))
  }

  /** One iteration of the first loop: refresh the `n`-th agent and report
      whether its search is still running. */
  method PassStep(w: World, cur: World, ghost pre: seq<World>, n: nat, m: Metrics)
    returns (next: World, ghost pre': seq<World>, stop: bool)
    requires PassSoFar(w, cur, pre, n) && n < |w.agents.agents|
    ensures Valid(next) && next.field == w.field && next.agents == w.agents && next.isPaused == w.isPaused
    ensures |pre'| == n + 2 && Refreshed(pre', w.agents.agents, n + 1) && pre'[0] == w && pre'[n + 1] == next
    ensures forall j :: 0 <= j < n ==> !Pending(pre'[j + 1], w.agents.agents[j])
    ensures stop <==> Pending(next, w.agents.agents[n])
    ensures !stop ==> PassSoFar(w, next, pre', n + 1)
  {
    var a := w.agents.agents[n];
    next, pre' := RefreshNext(w, cur, pre, n, m);
    SettledKept(cur, next, n);
    var rec := next.records[a];
    stop := rec.lastResult.Some? && rec.lastResult.value.path.None?;
  }

  /** `pre` is a run of `n` refreshes of the agents `refs[..n]` in order. */
  ghost predicate Refreshed(pre: seq<World>, refs: seq<AgentRef>, n: nat) {
    && |pre| == n + 1 && n <= |refs|
    && forall j :: 0 <= j < n ==> RefreshStep(pre, refs, j)
  }

  /** The `j`-th step of a run of refreshes: `pre[j + 1]` is `pre[j]` after
      refreshing agent `refs[j]`. */
  ghost predicate RefreshStep(pre: seq<World>, refs: seq<AgentRef>, j: nat)
    requires j + 1 < |pre| && j < |refs|
  {
    Valid(pre[j]) && Has(pre[j].agents, refs[j]) && Refreshes(pre[j], refs[j], pre[j + 1])
  }

  /** One iteration of the first loop: the `i`-th agent's path is refreshed,
      which extends the run of refreshes by one. */
  method RefreshNext(w0: World, w: World, ghost pre: seq<World>, i: nat, m: Metrics)
    returns (w': World, ghost pre': seq<World>)
    requires Valid(w) && w.agents == w0.agents && i < |w0.agents.agents|
    requires Refreshed(pre, w0.agents.agents, i) && pre[0] == w0 && pre[i] == w
    requires forall j :: 0 <= j < i ==> !Pending(pre[j + 1], w0.agents.agents[j])
    ensures Valid(w') && w'.field == w.field && w'.agents == w.agents && w'.isPaused == w.isPaused
    ensures Refreshed(pre', w0.agents.agents, i + 1) && pre'[0] == w0 && pre'[i + 1] == w'
    ensures forall j :: 0 <= j < i ==> !Pending(pre'[j + 1], w0.agents.agents[j])
    ensures var a := w0.agents.agents[i];
      && a in w'.records && w'.records == w.records[a := w'.records[a]]
      && w'.records[a].lastResult.Some?
      && w'.records[a].lastResult.value.target == TargetPos(w', a)
      && (w'.records[a].lastResult.value.path.Some? ==> Settled(w', a))
  {
    var a := w0.agents.agents[i];
    w' := RepathfindIfNecessary(w, a, m);
    RefreshedExtend(pre, w0.agents.agents, i, w');
    pre' := pre + [w'];
  }

  /** Appending one more refresh to a run of refreshes. */
  lemma {:induction false} RefreshedExtend(pre: seq<World>, refs: seq<AgentRef>, i: nat, next: World)
    requires Refreshed(pre, refs, i) && i < |refs|
    requires Valid(pre[i]) && Has(pre[i].agents, refs[i]) && Refreshes(pre[i], refs[i], next)
    ensures Refreshed(pre + [next], refs, i + 1)
    ensures forall j :: 0 <= j < i + 1 ==> (pre + [next])[j] == pre[j]
  {
    forall j | 0 <= j < i + 1
      ensures RefreshStep(pre + [next], refs, j)
    {
      assert (pre + [next])[j] == pre[j];
      assert (pre + [next])[j + 1] == if j < i then pre[j + 1] else next;
      assert j < i ==> RefreshStep(pre, refs, j);
    }
  }

  /** Agent `a` holds a published path for its current target. */
  predicate Settled(w: World, a: AgentRef)
    requires Valid(w) && Has(w.agents, a)
  {
    && a in w.records && w.records[a].lastResult.Some?
    && w.records[a].lastResult.value.path.Some?
    && w.records[a].lastResult.value.target == TargetPos(w, a)
  }

  /** Changing the record of the `i`-th live agent alone leaves the agents
      before it settled. */
  lemma SettledKept(w: World, w': World, i: nat)
    requires Valid(w) && Valid(w') && w'.agents == w.agents && i < |w.agents.agents|
    requires w.agents.agents[i] in w'.records
    requires w'.records == w.records[w.agents.agents[i] := w'.records[w.agents.agents[i]]]
    requires forall j :: 0 <= j < i ==> Settled(w, w.agents.agents[j])
    ensures forall j :: 0 <= j < i ==> Settled(w', w.agents.agents[j])
  {
    forall j | 0 <= j < i
      ensures Settled(w', w.agents.agents[j])
    {
      assert w.agents.agents[j] != w.agents.agents[i];
    }
  }

  /** The second loop of the step: every live agent in list order takes its
      `Turn`, from `steps[i]` to `steps[i + 1]`. */
  method SecondPass(w: World, m: Metrics) returns (w': World, ghost steps: seq<World>, ghost refreshed: seq<World>)
    requires Valid(w) && forall a :: a in w.agents.agents ==> a in w.records
    ensures Progress(w, w', |w.agents.agents|)
    ensures Turns(steps, w.agents.agents, refreshed, |w.agents.agents|)
    ensures steps[0] == w && steps[|w.agents.agents|] == w'
  {
    var refs := w.agents.agents;
    w', steps, refreshed := w, [w], [];
    var i := 0;
    while i < |refs|
      invariant Progress(w, w', i)
      invariant Turns(steps, refs, refreshed, i) && steps[0] == w && steps[i] == w'
    {
      w', steps, refreshed := TakeTurn(w, w', steps, refreshed, i, m);
      i := i + 1;
    }
  }

  /** One iteration of the second loop: the `i`-th agent takes its turn,
      which extends the run of turns by one. */
  method TakeTurn(w0: World, w: World, ghost steps: seq<World>, ghost refreshed: seq<World>, i: nat, m: Metrics)
    returns (w': World, ghost steps': seq<World>, ghost refreshed': seq<World>)
    requires Progress(w0, w, i) && i < |w0.agents.agents|
    requires Turns(steps, w0.agents.agents, refreshed, i) && steps[0] == w0 && steps[i] == w
    ensures Progress(w0, w', i + 1)
    ensures Turns(steps', w0.agents.agents, refreshed', i + 1) && steps'[0] == w0 && steps'[i + 1] == w'
  {
    ghost var r;
    w', r := StepAgent(w0, w, i, m);
    TurnsExtend(steps, w0.agents.agents, refreshed, i, r, w');
    steps', refreshed' := steps + [w'], refreshed + [r];
  }

  /** Appending one more turn to a run of turns. */
  /** `steps` is a run of `n` turns of the agents `refs[..n]` in order, the
      `j`-th turn refreshing to `refreshed[j]`. */
  ghost predicate Turns(steps: seq<World>, refs: seq<AgentRef>, refreshed: seq<World>, n: nat) {
    && |steps| == n + 1 && |refreshed| == n && n <= |refs|
    && forall j :: 0 <= j < n ==> TurnStep(steps, refs, refreshed, j)
  }

  /** The `j`-th turn of a run of turns. */
  ghost predicate TurnStep(steps: seq<World>, refs: seq<AgentRef>, refreshed: seq<World>, j: nat)
    requires j + 1 < |steps| && j < |refs| && j < |refreshed|
  {
    Turn(steps[j], refs[j], refreshed[j], steps[j + 1])
  }

  /** Appending one more turn to a run of turns. */
  lemma {:induction false} TurnsExtend(steps: seq<World>, refs: seq<AgentRef>, refreshed: seq<World>, i: nat,
                    r: World, next: World)
    requires Turns(steps, refs, refreshed, i) && i < |refs|
    requires Turn(steps[i], refs[i], r, next)
    ensures Turns(steps + [next], refs, refreshed + [r], i + 1)
  {
    forall j | 0 <= j < i + 1
      ensures TurnStep(steps + [next], refs, refreshed + [r], j)
    {
      assert (steps + [next])[j] == steps[j];
      assert (steps + [next])[j + 1] == if j < i then steps[j + 1] else next;
      assert (refreshed + [r])[j] == if j < i then refreshed[j] else r;
      assert j < i ==> TurnStep(steps, refs, refreshed, j);
    }
  }

  /** What the second loop of the step keeps once `i` agents have had their
      turn: the world is well formed, the agent list and the field are as
      before, every live agent has a record, and only the first `i` agents may
      have moved, each by at most one king's step. */
  ghost predicate Progress(w0: World, w: World, i: int) {
    && Valid(w) && w.field == w0.field && w.isPaused == w0.isPaused
    && w.agents.agents == w0.agents.agents && 0 <= i <= |w.agents.agents|
    && |w.agents.objects| == |w0.agents.objects|
    && w.agents.ids == w0.agents.ids && w.agents.topId == w0.agents.topId
    && (forall j :: 0 <= j < |w.agents.agents| ==> w.agents.agents[j] in w.records)
    && (forall r :: 0 <= r < |w0.agents.objects| ==>
          Chebyshev(w0.agents.objects[r].position, w.agents.objects[r].position) <= 1)
    && (forall r :: 0 <= r < |w0.agents.objects| && r !in w.agents.agents[..i] ==>
          w.agents.objects[r] == w0.agents.objects[r])
  }

  /** Touching records only keeps the loop's progress. */
  lemma RecordsKeepProgress(w0: World, w: World, w': World, i: int)
    requires Progress(w0, w, i) && Valid(w')
    requires w'.field == w.field && w'.agents == w.agents && w'.isPaused == w.isPaused
    requires w.records.Keys <= w'.records.Keys
    ensures Progress(w0, w', i)
  {
  }

  /** The world after agent `a` takes the step `next`, if any. */
  function Advance(w: World, a: AgentRef, next: Option<Vec2>): World
    requires a < |w.agents.objects|
  {
    if next.Some? then w.(agents := MoveAgent(w.agents, a, next.value)) else w
  }

  /** Agent `i` taking a free, adjacent step inside the field (or none) keeps
      the loop's progress one agent further. */
  lemma AdvanceKeepsProgress(w0: World, w: World, i: int, next: Option<Vec2>)
    requires Progress(w0, w, i) && i < |w.agents.agents|
    requires next.Some? ==>
      && !HasAt(w.agents, next.value)
      && InBounds(w.field.width, w.field.height, next.value)
      && Adjacent(Position(w, w.agents.agents[i]), next.value)
    ensures Progress(w0, Advance(w, w.agents.agents[i], next), i + 1)
  {
    var refs := w.agents.agents;
    var a := refs[i];
    assert refs[..i + 1] == refs[..i] + [a];
    assert a !in refs[..i] by {
      assert NoDups(refs);
    }
    if next.Some? {
      var w' := Advance(w, a, next);
      assert AgentCollections.Valid(w'.agents);
      forall k | 0 <= k < |refs|
        ensures InBounds(w.field.width, w.field.height, Position(w', refs[k]))
      {
        if refs[k] != a {
          assert Position(w', refs[k]) == Position(w, refs[k]);
        }
      }
    }
  }

  /** The second loop's `setStatus(MOVING)` on the agent's record. */
  function MarkMoving(w: World, a: AgentRef): (r: World)
    requires Has(w.agents, a)
    ensures a in r.records && r.records[a] == SetStatus(GetAgentRecord(w, a).0, Moving)
    ensures r.records == w.records[a := r.records[a]]
    ensures r.field == w.field && r.agents == w.agents && r.isPaused == w.isPaused
    ensures Valid(w) ==> Valid(r)
  {
    var (rec, w1) := GetAgentRecord(w, a);
    w1.(records := w1.records[a := SetStatus(rec, Moving)])
  }

  /** The cell the second loop moves agent `a` to: the next one on its
      published path, if there is a published path and a next cell. */
  function NextStep(w: World, a: AgentRef): Option<Vec2>
    requires Valid(w) && a < |w.agents.objects| && a in w.records
  {
    var res := w.records[a].lastResult;
    if res.Some? && res.value.path.Some? then NextPosition(w, a, res.value.path.value) else None
  }

  /** The end of a turn: agent `a` moves to its next step, if it has one, and
      that cell is free; otherwise nothing changes. Records, field and the
      other agents stay as they were. */
  ghost predicate StepsAlong(w: World, a: AgentRef, w': World)
    requires Valid(w) && a < |w.agents.objects| && a in w.records
  {
    && w'.field == w.field && w'.records == w.records && w'.isPaused == w.isPaused
    && (NextStep(w, a).None? ==> w'.agents == w.agents)
    && (NextStep(w, a).Some? ==>
          && !HasAt(w.agents, NextStep(w, a).value)
          && w'.agents.objects == w.agents.objects[a := Move(w.agents.objects[a], NextStep(w, a).value)]
          && w'.agents.agents == w.agents.agents
          && w'.agents.ids == w.agents.ids && w'.agents.topId == w.agents.topId)
  }

  /** One turn of the second loop for agent `a`: `before` marked MOVING,
      refreshed into `refreshed`, which then steps along into `after`. */
  ghost predicate Turn(before: World, a: AgentRef, refreshed: World, after: World) {
    && Valid(before) && Has(before.agents, a)
    && Refreshes(MarkMoving(before, a), a, refreshed)
    && Valid(refreshed) && a < |refreshed.agents.objects| && a in refreshed.records
    && StepsAlong(refreshed, a, after)
  }

  /** One turn of the second loop of the step: agent `i` is marked MOVING,
      its path refreshed, and it moves to the next cell of a published path.
      When its result needed no new search, its status is left at MOVING. */
  method StepAgent(w0: World, w: World, i: int, m: Metrics) returns (w': World, ghost refreshed: World)
    requires Progress(w0, w, i) && i < |w.agents.agents|
    ensures Progress(w0, w', i + 1)
    ensures Turn(w, w.agents.agents[i], refreshed, w')
    ensures var a := w.agents.agents[i];
      !ShouldRepathfind(w, a, GetAgentRecord(w, a).0.lastResult) ==>
        a in w'.records && w'.records[a].status == Some(Moving)
  {
    var a := w.agents.agents[i];
    var w2 := MarkMoving(w, a);
    RecordsKeepProgress(w0, w, w2, i);
    var w3 := RepathfindIfNecessary(w2, a, m);
    RecordsKeepProgress(w0, w2, w3, i);
    refreshed := w3;
    var res := w3.records[a].lastResult;
    var next := NextStep(w3, a);
    if next.Some? {
      NextCellIsFree(w3, a, res.value);
    }
    AdvanceKeepsProgress(w0, w3, i, next);
    w' := Advance(w3, a, next);
  }

  /** Building walls (a UI action on the world's field): any cell may be
      toggled, and the world stays well formed. */
  function SetWallAt(w: World, p: Vec2, isWall: bool): (r: World)
    requires Valid(w) && InBounds(w.field.width, w.field.height, p)
    ensures Valid(r) && r.agents == w.agents && r.records == w.records
    ensures r.field.width == w.field.width && r.field.height == w.field.height
    ensures GetCellAt(r.field, p).value.isWall == isWall
    ensures forall q :: InBounds(w.field.width, w.field.height, q) && q != p ==>
      GetCellAt(r.field, q) == GetCellAt(w.field, q)
  {
    var f := ForEachCell(w.field, (c: Cell<WorldCell>) => if c.position == Some(p) then WorldCell(isWall) else c.value);
    w.(field := f)
  }

  /** Placing a new agent (`new TAgent` then `add`): the cell must be inside
      the field and free. */
  function AddAgent(w: World, position: Vec2, target: Target): (r: (AgentRef, World))
    requires Valid(w) && InBounds(w.field.width, w.field.height, position)
    requires !HasAt(w.agents, position) && TargetExists(w.agents, target)
    ensures Valid(r.1) && Has(r.1.agents, r.0) && r.0 == |w.agents.objects|
    ensures r.1.agents.agents == w.agents.agents + [r.0]
    ensures r.1.agents == Add(Create(w.agents, position, target).1, r.0)
    ensures Position(r.1, r.0) == position
    ensures r.1.field == w.field && r.1.records == w.records
  {
    var (a, c) := Create(w.agents, position, target);
    assert forall i :: 0 <= i < |w.agents.agents| ==> c.objects[w.agents.agents[i]] == w.agents.objects[w.agents.agents[i]];
    assert !HasAt(c, c.objects[a].position);
    (a, w.(agents := Add(c, a)))
  }

  /** Removing a live agent (`delete`). */
  function DeleteAgent(w: World, a: AgentRef): (r: World)
    requires Valid(w) && Has(w.agents, a)
    ensures Valid(r) && !Has(r.agents, a)
    ensures r.agents == Delete(w.agents, a)
    ensures r.agents.objects == w.agents.objects && r.field == w.field && r.records == w.records
  {
    var c := Delete(w.agents, a);
    assert forall i :: 0 <= i < |c.agents| ==> c.agents[i] in w.agents.agents;
    w.(agents := c)
  }
}
