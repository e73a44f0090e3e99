# react-pathfinding, modelled in Dafny

A model of the simulation engine behind the react-pathfinding grid demo. It
covers a rectangular field of cells, agents that walk towards a fixed cell
or chase another agent, and the A* search that plans their routes. It also
covers the world that, once per tick, searches again for every agent whose
path has gone stale and then moves each agent one cell along its path.

The modules follow the source files:

- `Vector2` models `Vector2.ts`.
- `Fields` models `Field.ts`.
- `Events` models `Event.ts`.
- `ObjectKeys` models `ObjectKeyGenerator.ts`.
- `Agents` models `Agent.ts`.
- `AgentCollections` models `AgentCollection.ts`.
- `PathfindingTypes` and `PathfindingDispatch` model `Pathfinding.ts`.
- `AStar` models `AStar.ts`.
- `Worlds` models `World.ts`.
- `Nullable` and `Seqs` are small shared helpers: the option type and `filter`/`findIndex`/`reverse` on sequences.

Modelling choices:

- **Values instead of objects.** Every entity is an immutable datatype, and each mutator returns the new value.
- **Agent identity.** An agent's identity is an `AgentRef`: an index into the collection's `objects`, which holds every agent ever created. A deleted agent leaves the live list, `agents`, but stays in `objects`. So an agent that chases a deleted agent keeps seeing that agent's last position, exactly as the source's object reference does.
- **Synchronous search.** The asynchronous search is a synchronous method. It returns a *pending* result whose computed path is held in `promise`, with `path` still `None`. `Resolve` is the promise callback that publishes the path.
- **Heuristics.** The Manhattan heuristic is exact. The two floating-point heuristics are integer functions supplied by the caller (`AStar.Metrics`).
- **The tick.** The body of the `setInterval` callback in `World.ts` is the method `Worlds.Tick`.

What is proved:

- **A\* soundness.** A non-empty result is a king's-step walk from start to target over walkable cells, with no repeated cell.
- **A\* completeness.** An empty result means no such walk exists.
- **A\* overlay.** The overlay marks exactly the path BEST, everything else UNKNOWN, with parent links along the path.
- **Collision-free ticks.** The tick moves agents with the raw `_setPosition`, yet no two live agents ever share a cell. The proof rests on three things: the re-check of every path just before the agent moves, the walkability mask and the dropping of the chased agent's cell.

## Model

Paths are relative to the repository root.

| member | source | states |
|---|---|---|
| Vector2.Clone | src/components/Pathfinding/types/generic/Vector2.ts:10-15 | the copy equals the original, also under `equals` |
| Vector2.Equals | src/components/Pathfinding/types/generic/Vector2.ts:25-27 | true exactly when both coordinates agree, i.e. when the vectors are the same value |
| Vector2.SetX | src/components/Pathfinding/types/generic/Vector2.ts:31-33 | x becomes the argument, y is kept; the result equals the original iff x was already that value |
| Vector2.SetY | src/components/Pathfinding/types/generic/Vector2.ts:35-37 | y becomes the argument, x is kept; the result equals the original iff y was already that value |
| Vector2.SettersCommute | src/components/Pathfinding/types/generic/Vector2.ts:31-37 | setting x then y or y then x gives the same vector (x, y) |
| Seqs.Without | src/components/Pathfinding/types/generic/Event/Event.ts:17-20 | the `filter(l => l !== x)` of the source: no element is x, every other element survives, the list shrinks when x was present, and a duplicate-free list stays duplicate-free |
| Seqs.WithoutCounts | src/components/Pathfinding/types/generic/Event/Event.ts:17-20 | filtering x out removes every copy of x and keeps every other element exactly as often as before |
| Seqs.WithoutAppend | src/components/Pathfinding/types/generic/Event/Event.ts:17-20 | filtering a concatenation filters each part and joins them, so the kept elements stay in their original order |
| Seqs.WithoutAll | src/components/Pathfinding/types/World/Pathfinding/AStar.ts:206-217 | filtering several elements out: what remains comes from the input and is none of them, and every other element of the input remains |
| Seqs.WithoutMore | src/components/Pathfinding/types/World/Pathfinding/AStar.ts:206-217 | filtering one more element out of a filtered list is filtering the longer list out of the original |
| Seqs.WithoutSingle | src/components/Pathfinding/types/World/Agent/AgentCollection.ts:55-60 | on a duplicate-free list, filtering out the element at index i is the list with exactly that slot cut out, the rest in order |
| Seqs.IndexOf | src/components/Pathfinding/types/World/World.ts:347-349 | `findIndex`: -1 exactly when the element is absent, otherwise the index of its first occurrence |
| Seqs.Reverse | src/components/Pathfinding/types/World/Pathfinding/AStar.ts:173 | element i of the result is element n-1-i of the input |
| Seqs.ReverseNoDups | src/components/Pathfinding/types/World/Pathfinding/AStar.ts:159-173 | reversing a duplicate-free list keeps it duplicate-free |
| Fields.SetPosition | src/components/Pathfinding/types/generic/Field/Field.ts:13-16 | a cell's position may be set only when unset or to the same value; afterwards it is that position, and re-setting the same value changes nothing |
| Fields.New | src/components/Pathfinding/types/generic/Field/Field.ts:35-52 | both sides must be positive; the field has those dimensions, every slot (x, y) holds a cell positioned at (x, y), carrying the fill function's value |
| Fields.HasCellAt | src/components/Pathfinding/types/generic/Field/Field.ts:83-88 | on a well-formed field, true exactly when 0 ≤ x < width and 0 ≤ y < height |
| Fields.GetCellAt | src/components/Pathfinding/types/generic/Field/Field.ts:90-93 | requires a cell there; the cell returned is the one positioned at that coordinate |
| Fields.Resize | src/components/Pathfinding/types/generic/Field/Field.ts:62-70 | the new field has the new dimensions; inside both old and new bounds the old cell is kept, elsewhere a fresh empty cell |
| Fields.GetNeighbourCellsAt | src/components/Pathfinding/types/generic/Field/Field.ts:95-115 | requires an in-bounds position; returns at most 8 cells, all in bounds at Chebyshev distance 1, every such cell included, in column-major (dx outer, dy inner) order |
| Fields.VisitOrderIsRowMajor | src/components/Pathfinding/types/generic/Field/Field.ts:117-123 | the visiting order has width·height cells, every in-bounds cell appears, and earlier entries precede later ones in row-major order, so each is visited exactly once |
| Fields.ForEachCell | src/components/Pathfinding/types/generic/Field/Field.ts:117-123 | every cell gets the value the callback computes from it; positions and dimensions are kept |
| Fields.ForEachCellInVisitOrder | src/components/Pathfinding/types/generic/Field/Field.ts:117-123 | listed in visit order, the updated field is the original cells, entry for entry, each with the callback's value for it |
| Events.NewEvent | src/components/Pathfinding/types/generic/Event/Event.ts:10 | an event starts with no listeners |
| Events.AddListener | src/components/Pathfinding/types/generic/Event/Event.ts:12-15 | requires the listener absent; it is appended after the existing listeners, which keep their order; no duplicates arise |
| Events.RemoveListener | src/components/Pathfinding/types/generic/Event/Event.ts:17-20 | requires the listener present; afterwards it is absent, the list is shorter, and on a duplicate-free list exactly its slot is removed with the others in order |
| Events.Dispatch | src/components/Pathfinding/types/generic/Event/Event.ts:24-26 | one call per listener, in registration order, each with the dispatched arguments |
| Events.DispatchCallsEachListenerOnce | src/components/Pathfinding/types/generic/Event/Event.ts:24-26 | on a duplicate-free list, a dispatch calls a registered listener exactly once and an unregistered one never |
| ObjectKeys.NewGenerator | src/components/Pathfinding/types/generic/ObjectKeyGenerator.ts:2-3 | the counter starts at 1 with no keys handed out |
| ObjectKeys.GetKey | src/components/Pathfinding/types/generic/ObjectKeyGenerator.ts:5-12 | a known object gets its stored key and nothing changes; an unseen one gets the counter, which then grows by one, and its key exceeds every earlier key |
| ObjectKeys.FirstKeyIsOne | src/components/Pathfinding/types/generic/ObjectKeyGenerator.ts:2-11 | the first key handed out is 1 |
| ObjectKeys.GetKeyIsStable | src/components/Pathfinding/types/generic/ObjectKeyGenerator.ts:6-7 | asking again for the same object returns the same key and changes nothing |
| ObjectKeys.DistinctObjectsGetDistinctKeys | src/components/Pathfinding/types/generic/ObjectKeyGenerator.ts:5-11 | two different objects never share a key |
| Agents.NewAgent | src/components/Pathfinding/types/World/Agent/Agent.ts:10-17 | a new agent stands at the given position with the given target and no last position |
| Agents.SetTarget | src/components/Pathfinding/types/World/Agent/Agent.ts:43-45 | only the target changes; position and last position are kept |
| Agents.Move | src/components/Pathfinding/types/World/Agent/Agent.ts:47-50 | the old position becomes the last position and the agent stands at the new one; the target is kept |
| Agents.TargetPosition | src/components/Pathfinding/types/World/Agent/Agent.ts:35-39 | a fixed target's position is its coordinate; a chase target's position is where the chased agent stands now |
| Agents.LastPositionOnlyAfterMove | src/components/Pathfinding/types/World/Agent/Agent.ts:10-50 | from a fresh agent, after any sequence of retargets and moves the last position is unset exactly when no move happened, and then the position is unchanged |
| Agents.KeepsLastPosition | src/components/Pathfinding/types/World/Agent/Agent.ts:43-50 | once set, the last position stays set whatever follows |
| AgentCollections.NewCollection | src/components/Pathfinding/types/World/Agent/AgentCollection.ts:47 | an empty collection whose ID counter is 1, satisfying the collection invariant |
| AgentCollections.Create | src/components/Pathfinding/types/World/Agent/Agent.ts:10-17 | constructing an agent adds a new object (the next reference) without making it live; the invariant is kept |
| AgentCollections.SafeGetAt | src/components/Pathfinding/types/World/Agent/AgentCollection.ts:21-26 | `None` exactly when no live agent stands there; otherwise the first live agent in list order that does |
| AgentCollections.HasAt | src/components/Pathfinding/types/World/Agent/AgentCollection.ts:34-36 | true exactly when some live agent stands there |
| AgentCollections.GetAt | src/components/Pathfinding/types/World/Agent/AgentCollection.ts:28-32 | requires an occupant; returns a live agent standing there |
| AgentCollections.SafeGetAtIsTheOccupant | src/components/Pathfinding/types/World/Agent/AgentCollection.ts:21-26 | in a valid collection the agent found at a live agent's cell is that agent |
| AgentCollections.GetID | src/components/Pathfinding/types/World/Agent/AgentCollection.ts:38-41 | requires an added agent; its ID lies in [1, counter) and no other agent has it |
| AgentCollections.Add | src/components/Pathfinding/types/World/Agent/AgentCollection.ts:49-53 | requires the agent's cell free; it is appended, gets the counter as ID, the counter grows by one, the new ID exceeds all earlier ones and the invariant (distinct cells, distinct IDs) is kept |
| AgentCollections.Delete | src/components/Pathfinding/types/World/Agent/AgentCollection.ts:55-60 | requires membership; exactly that agent leaves, all others stay; on a duplicate-free list exactly its slot is cut out with the others in order; IDs and counter are untouched, the invariant is kept |
| AgentCollections.DeleteKeepsDistinct | src/components/Pathfinding/types/World/Agent/AgentCollection.ts:55-60 | removing one agent keeps the remaining agents on distinct cells |
| AgentCollections.MoveAgent | src/components/Pathfinding/types/World/World.ts:354 | the raw `_setPosition` on a collection member: only that agent changes; the invariant is kept when the destination is free |
| AgentCollections.SetAgentPosition | src/components/Pathfinding/types/World/Agent/AgentCollection.ts:62-65 | requires the destination free; the agent stands there with its old position as last position, nobody else changes, the invariant is kept |
| AgentCollections.SetAgentTarget | src/components/Pathfinding/types/World/Agent/Agent.ts:43-45 | retargeting one agent to an existing target keeps its position and last position, changes nobody else and keeps the invariant |
| AgentCollections.FirstIdIsOne | src/components/Pathfinding/types/World/Agent/AgentCollection.ts:47-53 | whatever its position and target, the first agent added to a new collection gets ID 1 |
| AgentCollections.ChaseFollowsMove | src/components/Pathfinding/types/World/Agent/Agent.ts:35-39 | when the chased agent moves, the chaser's target position is the chased agent's new position |
| AgentCollections.DeleteFreezesTarget | src/components/Pathfinding/types/World/Agent/AgentCollection.ts:55-60 | deleting an agent does not change any other agent's target position, so a chaser keeps the deleted agent's last position |
| PathfindingTypes.SetIsUsingDelay | src/components/Pathfinding/types/World/Pathfinding/Pathfinding.ts:134-136 | only the delay flag changes |
| PathfindingTypes.SetHeuristic | src/components/Pathfinding/types/World/Pathfinding/Pathfinding.ts:138-140 | only the heuristic changes |
| PathfindingTypes.SetAlgorithm | src/components/Pathfinding/types/World/Pathfinding/Pathfinding.ts:142-144 | only the algorithm changes |
| PathfindingTypes.SettersCommute | src/components/Pathfinding/types/World/Pathfinding/Pathfinding.ts:133-145 | any two setters commute |
| PathfindingTypes.SetIsWalkable | src/components/Pathfinding/types/World/Pathfinding/Pathfinding.ts:105-107 | the walkability becomes the argument, the cell's position is kept |
| PathfindingTypes.Resolve | src/components/Pathfinding/types/World/Pathfinding/Pathfinding.ts:71-74 | a pending result's path becomes the computed path; target, overlay and computed path are kept |
| AStar.Distance | src/components/Pathfinding/types/World/Pathfinding/AStar.ts:82-96 | the Manhattan distance lies between the Chebyshev distance and twice it; Diagonal and Euclidean are the supplied metrics |
| AStar.ManhattanIsMetric | src/components/Pathfinding/types/World/Pathfinding/AStar.ts:84-85 | the Manhattan distance is symmetric, zero only between equal cells, and 1 or 2 between neighbours |
| AStar.SelectBest | src/components/Pathfinding/types/World/Pathfinding/AStar.ts:151-154 | the chosen open cell has minimal f, and every earlier open cell has a strictly larger f (first minimum in insertion order) |
| AStar.Relax | src/components/Pathfinding/types/World/Pathfinding/AStar.ts:181-219 | unwalkable or closed neighbours change nothing; when the neighbour is open with a stored f strictly below the proposed one the search is unchanged; otherwise the neighbour's entry becomes g = g(best) + distance(best, q), f = g + distance(q, target), parent best, state OPEN, and it moves to the end of the open order; no other cell changes, f never grows, no duplicates arise |
| AStar.Expand | src/components/Pathfinding/types/World/Pathfinding/AStar.ts:181-220 | after the neighbour loop every neighbour of the expanded cell holds what relaxing it from the search before the loop gives: `Proposal` when it is walkable, not closed and not `Kept`, its old entry otherwise; no other cell changes; the rewritten neighbours go to the back of the open list in the order the loop visits them, and the other open cells keep their order; every walkable neighbour is open or closed, closed cells are untouched, and the parent-link and frontier invariants hold |
| AStar.RelaxTracks | src/components/Pathfinding/types/World/Pathfinding/AStar.ts:196-219 | relaxing one more unvisited neighbour extends the record of the loop: that neighbour now holds its `Proposal` or its old entry as the skip test at line 209 decides against the search before the loop, and it joins the back of the open list exactly when it was rewritten |
| AStar.Reconstruct | src/components/Pathfinding/types/World/Pathfinding/AStar.ts:159-165 | following parents from the target ends at the start, every step is a king's step onto a walkable cell, and no cell repeats |
| AStar.ChainNoDups | src/components/Pathfinding/types/World/Pathfinding/AStar.ts:159-165 | a parent chain through cells closed in strictly decreasing order has no repeated cell |
| AStar.ReversedWalk | src/components/Pathfinding/types/World/Pathfinding/AStar.ts:173-175 | the reversed parent chain is a walk from start to target |
| AStar.Overlay | src/components/Pathfinding/types/World/Pathfinding/AStar.ts:167-171 | the overlay has the field's dimensions; a cell is BEST exactly when it lies on the path, UNKNOWN otherwise |
| AStar.ExpandBest | src/components/Pathfinding/types/World/Pathfinding/AStar.ts:178-224 | one iteration whose best cell is not the target closes exactly that cell and keeps the loop invariant |
| AStar.Found | src/components/Pathfinding/types/World/Pathfinding/AStar.ts:158-176 | when the best open cell is the target, the result is the reversed parent chain: a walk from start to target over walkable cells by king's steps without repeats, [start] when start is the target, with the overlay BEST exactly on the path |
| AStar.Close | src/components/Pathfinding/types/World/Pathfinding/AStar.ts:222-223 | the expanded cell joins the closed set and is marked CLOSED; nothing else changes |
| AStar.CloseKeeps | src/components/Pathfinding/types/World/Pathfinding/AStar.ts:150-224 | one loop iteration that does not reach the target keeps the loop invariant (parent links, frontier closure, target not closed) |
| AStar.NothingReachable | src/components/Pathfinding/types/World/Pathfinding/AStar.ts:226-227 | when the open set is empty before the target was reached, no walk from start to target exists |
| AStar.Pathfind | src/components/Pathfinding/types/World/Pathfinding/AStar.ts:81-236 | the result is pending for the input's target; a non-empty path walks from start to target on walkable cells by king's steps without repeats; an empty path means no walk exists; start = target gives [start]; the overlay marks the path BEST and all else UNKNOWN, with parents along the path |
| PathfindingDispatch.Pathfind | src/components/Pathfinding/types/World/Pathfinding/Pathfinding.ts:37-42 | with A* selected, the result carries every guarantee of the A* search |
| Worlds.SetIsWall | src/components/Pathfinding/types/World/World.ts:24-28 | the wall flag becomes the argument, the position is kept |
| Worlds.SetStatus | src/components/Pathfinding/types/World/World.ts:80-83 | the current status moves to the last status before the new one is stored; settings and last result are kept |
| Worlds.StatusHistoryIsOneDeep | src/components/Pathfinding/types/World/World.ts:80-83 | after two status changes the last status is the first of them |
| Worlds.NewWorld | src/components/Pathfinding/types/World/World.ts:111-117 | both sides positive; a wall-free field of that size, no agents, no records, not paused |
| Worlds.GetAgentRecord | src/components/Pathfinding/types/World/World.ts:131-142 | requires a live agent; an existing record is returned unchanged, otherwise a record with no delay, Euclidean and A* is created and stored |
| Worlds.GetAgentRecordIsStable | src/components/Pathfinding/types/World/World.ts:131-142 | asking again yields the same record and the same world |
| Worlds.SetIsPaused | src/components/Pathfinding/types/World/World.ts:170-172 | only the pause flag changes |
| Worlds.Mask | src/components/Pathfinding/types/World/World.ts:212-228 | the mask has the field's size; a cell is walkable exactly when it is no wall and holds no live agent other than the searcher and the agent it chases |
| Worlds.ShouldRepathfind | src/components/Pathfinding/types/World/World.ts:258-289 | true exactly when there is no result, the target position moved, or the published path contains a wall or a third party or does not contain the agent's cell; a pending result for the same target is never stale |
| Worlds.ScanPath | src/components/Pathfinding/types/World/World.ts:269-286 | the loop with early exit computes: some remaining cell is blocked, or the agent's cell was never seen |
| Worlds.Replan | src/components/Pathfinding/types/World/World.ts:209-252 | `Replanned`: status PATHFINDING, search on the mask from the agent to its target; without delay the path is published and the status is WAITING, with delay it stays pending; the path starts at the agent, has no wall after its first cell and no third party anywhere, and is empty only when no walk exists on the mask; only this agent's record changes and its settings are kept |
| Worlds.Store | src/components/Pathfinding/types/World/World.ts:246 | storing a record whose result is well formed keeps the world's invariant and changes no other record |
| Worlds.SearchIsClear | src/components/Pathfinding/types/World/World.ts:212-236 | a path found on the agent's mask contains no third party and no wall after its first cell |
| Worlds.SearchFits | src/components/Pathfinding/types/World/World.ts:230-246 | a result found on the mask, pending or published, is well formed for the world: in bounds, no repeats, king's steps, ends at its target |
| Worlds.RepathfindIfNecessary | src/components/Pathfinding/types/World/World.ts:202-295 | `Refreshes`: when the staleness test fires, the result is exactly a `Replanned` search from the agent's record; otherwise the world is as `getAgentRecord` left it |
| Worlds.RefreshedRecord | src/components/Pathfinding/types/World/World.ts:202-295 | after a refresh the agent has a result for its current target whose published path crosses no third party, and nothing but this agent's record changes |
| Worlds.ReplannedRecord | src/components/Pathfinding/types/World/World.ts:209-252 | a new search leaves a result for the agent's current target whose published path crosses no third party |
| Worlds.KeptPathIsClear | src/components/Pathfinding/types/World/World.ts:264-289 | a result the staleness test keeps is for the current target, and its published path crosses no third party |
| Worlds.NextPosition | src/components/Pathfinding/types/World/World.ts:338-354 | after dropping the last cell when chasing an agent, the agent moves exactly when its cell occurs before the last remaining cell, and then to the cell right after its first occurrence |
| Worlds.NextCellIsFree | src/components/Pathfinding/types/World/World.ts:328-354 | on a clear published path to the current target, the next cell is inside the field, one king's step away and held by no live agent, the chased one included |
| Worlds.ResolveSearch | src/components/Pathfinding/types/World/World.ts:241-244 | a delayed search completes: the path is published and the status becomes WAITING |
| Worlds.Tick | src/components/Pathfinding/types/World/World.ts:301-358 | paused: nothing changes; otherwise the first pass refreshes the live agents in list order, each by `Refreshes` from `pass[j]` to `pass[j + 1]`, starting at the world and ending at `mid`, and stops right after the first agent whose search is pending, with no earlier agent pending; the tick goes on to move agents exactly when no live agent's search is pending in `mid`; if one is, `mid` is the result; after a full step every live agent had a result for its current target in `mid`, each agent in list order took its `Turn` from `steps[i]` to `steps[i + 1]`, every live agent moved at most one king's step, no two live agents share a cell, deleted agents and the field are untouched |
| Worlds.FirstPass | src/components/Pathfinding/types/World/World.ts:304-321 | the agents 0..n-1 in list order each go through `Refreshes`, from `pre[j]` to `pre[j + 1]`, starting at the input world and ending at the result; it stops right after the first agent left pending, and no agent before it is pending; it reports success exactly when no live agent is pending, and then it ran through the whole list and every live agent has a result for its current target |
| Worlds.PassStep | src/components/Pathfinding/types/World/World.ts:306-317 | one iteration of the first loop: refresh agent n, extend the chain of `Refreshes` by one world, and stop exactly when that agent's search is pending |
| Worlds.SecondPass | src/components/Pathfinding/types/World/World.ts:323-355 | every live agent in list order takes its `Turn`, the agents stay on distinct cells and only live agents move |
| Worlds.MarkMoving | src/components/Pathfinding/types/World/World.ts:324-326 | the agent's status becomes MOVING, its previous status moves to the last status, and no other record changes |
| Worlds.StepAgent | src/components/Pathfinding/types/World/World.ts:323-355 | `Turn`: status MOVING, then a refresh as `Refreshes` states; then the agent becomes `Move(old, p)` exactly when `NextPosition` on its published path gives p, which is a free cell, and otherwise no agent changes; the status stays MOVING when no search was needed |
| Worlds.AdvanceKeepsProgress | src/components/Pathfinding/types/World/World.ts:354 | moving an agent onto a free adjacent in-bounds cell keeps all agents on distinct cells inside the field |
| Worlds.SetWallAt | src/components/Pathfinding/Pathfinding.tsx:84-103 | toggling one cell's wall flag changes only that cell and keeps the world well formed |
| Worlds.AddAgent | src/components/Pathfinding/Pathfinding.tsx:225-241 | a new agent on a free in-bounds cell is the collection's `Create` followed by `Add`: it becomes live at the end of the list and the world stays well formed |
| Worlds.DeleteAgent | src/components/Pathfinding/Pathfinding.tsx:231-236 | the agents are exactly the collection's `Delete` of that agent and the world stays well formed |

## Behaviour worth noting

- **Equal f.** An open entry is overwritten when the new f equals the stored one (`AStar.ts:209` skips only on a strictly smaller stored f), so the cell moves to the end of the open order.
- **Empty published path.** An empty published path is always stale: it cannot contain the agent's cell (`World.ts:285-286`).
- **Deleted chase targets.** `delete` only takes the agent out of the list (`AgentCollection.ts:55-60`), so an agent chasing a deleted agent keeps walking to that agent's last position.

## Left out

- Asynchrony is left out: the step delay, the pause gate, the `await`s and the `setInterval` timer. Searches are synchronous, a tick is one call of `Tick`, and overlapping ticks cannot occur in the model.
- The pause promise and the paused-changed event of `setIsPaused` are not modelled; only the flag is, because they only gate the asynchronous search.
- Intermediate overlay states during a search (OPEN, CLOSED, and the transient BEST on the expanded cell) are not modelled, because they are animation; only the final overlay is stated.
- Floating-point heuristics are not computed: Diagonal and Euclidean distances are caller-supplied integer functions (`AStar.Metrics`), because Dafny has no `Math.sqrt`.
- AStar.Pathfind: states no optimality of the path; the code never claims it, and it depends on the heuristic.
- Listener side effects are not modelled: the update requests and re-render callbacks. A dispatch is modelled as the list of calls it makes.
- `WeakMap` garbage collection is not modelled: records, IDs and keys are ordinary finite maps.
- Object identity of `clone` is not modelled: there is no mutable sharing in the model, so the fact that a clone is a fresh object has nothing to state.
- `hasCell`, `to2DArray` and the getters are not modelled; they only expose state the datatypes already show.
- `setBasePathfindingInput`, `setLastPathfindingResult` and the global input's setters are not modelled; they are plain assignments of record or input fields.
- The world's field is never resized by a tick. A resize is a UI action, and `Fields.Resize` models it on fields in general.
- Worlds.SetWallAt: does not require the cell to be free of agents and targets as the UI does, because the world's invariant does not depend on that.
- A delayed search that a later refresh has superseded still runs its callback when it completes (World.ts:241-244): it publishes its own path into the result object it created and sets the status to WAITING. The model does not interleave such a completion with later ticks.
- Coordinates are `int`: `Vector2` holds JavaScript `number`s, but every coordinate the program builds is a whole number (cell indices, sums with -1, 0 and 1), so fractions, NaN and infinities are not modelled.
- Worlds.Tick: requires a valid world, so it says nothing about a world whose live agents or stored paths lie outside the field after a UI resize (Pathfinding.tsx:61-64); the source would then fail the assertion in `getCellAt` (Field.ts:91), reached from the staleness scan (World.ts:273), on that tick.
- Worlds.Tick: a delayed search started in one tick completes only through `ResolveSearch`; the model does not interleave a completion into the middle of a tick.
