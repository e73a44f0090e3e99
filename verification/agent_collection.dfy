/**
 AgentCollection.ts: the live agents in insertion order, the ID each was
 given when added, and the counter the next ID comes from.

 Agent objects are identities in the source. Here `objects` holds every agent
 ever created, indexed by `AgentRef`; the collection's list `agents` holds the
 refs of the live ones. A deleted agent stays in `objects`, so an agent that
 chases it keeps seeing its last position, as the source's reference does.
 */
module AgentCollections {
  import opened Nullable
  import opened Vector2
  import opened Seqs
  import opened Agents

  datatype AgentCollection = AgentCollection(
    objects: seq<Agent>,
    agents: seq<AgentRef>,
    ids: map<AgentRef, nat>,
    topId: nat)

  /** A target names a coordinate or an agent that has been created. */
  predicate TargetExists(c: AgentCollection, t: Target) {
    t.Chase? ==> t.agent < |c.objects|
  }

  /** No two live agents stand on the same cell. */
  ghost predicate DistinctPositions(c: AgentCollection)
    requires forall i :: 0 <= i < |c.agents| ==> c.agents[i] < |c.objects|
  {
    forall i, j :: 0 <= i < j < |c.agents| ==>
      c.objects[c.agents[i]].position != c.objects[c.agents[j]].position
  }

  /** What the collection's operations keep. */
  ghost predicate Valid(c: AgentCollection) {
    && c.topId >= 1
    && (forall i :: 0 <= i < |c.agents| ==> c.agents[i] < |c.objects| && c.agents[i] in c.ids)
    && NoDups(c.agents)
    && (forall r :: r in c.ids ==> r < |c.objects| && 1 <= c.ids[r] < c.topId)
    && (forall r, r' :: r in c.ids && r' in c.ids && r != r' ==> c.ids[r] != c.ids[r'])
    && (forall r :: 0 <= r < |c.objects| ==> TargetExists(c, c.objects[r].target))
    && DistinctPositions(c)
  }

  /** A fresh collection: no agents, the first ID will be 1. */
  function NewCollection(): (c: AgentCollection)
    ensures Valid(c) && c.agents == [] && c.topId == 1
  {
    AgentCollection([], [], map[], 1)
  }

  /** `new TAgent(position, target)`: a new agent object, not yet in the list. */
  function Create(c: AgentCollection, position: Vec2, target: Target): (r: (AgentRef, AgentCollection))
    requires TargetExists(c, target)
    ensures r.0 == |c.objects| && r.1.objects == c.objects + [NewAgent(position, target)]
    ensures r.1.agents == c.agents && r.1.ids == c.ids && r.1.topId == c.topId
    ensures Valid(c) ==> Valid(r.1)
  {
    var c' := c.(objects := c.objects + [NewAgent(position, target)]);
    assert Valid(c) ==> forall i :: 0 <= i < |c.agents| ==> c'.objects[c.agents[i]] == c.objects[c.agents[i]];
    (|c.objects|, c')
  }

  /** `has`: list membership. */
  predicate Has(c: AgentCollection, a: AgentRef) {
    a in c.agents
  }

  /** Some live agent stands at `p`. */
  ghost predicate Occupied(c: AgentCollection, p: Vec2) {
    exists i :: 0 <= i < |c.agents| && c.agents[i] < |c.objects| && c.objects[c.agents[i]].position == p
  }

  /** `safeGetAt`: the first live agent, in list order, standing at `p`. */
  function SafeGetAt(c: AgentCollection, p: Vec2): (r: Option<AgentRef>)
    requires forall i :: 0 <= i < |c.agents| ==> c.agents[i] < |c.objects|
    ensures r.None? <==> !Occupied(c, p)
    ensures r.Some? ==>
      (exists k :: 0 <= k < |c.agents| && c.agents[k] == r.value &&
                   c.objects[r.value].position == p &&
                   forall i :: 0 <= i < k ==> c.objects[c.agents[i]].position != p)
  {
    var k := FirstAt(c.objects, c.agents, p);
    if k == |c.agents| then None else Some(c.agents[k])
  }

  /** The index of the first ref in `refs` whose agent stands at `p`, or `|refs|`. */
  function FirstAt(objects: seq<Agent>, refs: seq<AgentRef>, p: Vec2): (k: nat)
    requires forall i :: 0 <= i < |refs| ==> refs[i] < |objects|
    ensures k <= |refs|
    ensures forall i :: 0 <= i < k ==> objects[refs[i]].position != p
    ensures k < |refs| ==> objects[refs[k]].position == p
  {
    if |refs| == 0 then 0
    else if objects[refs[0]].position == p then 0
    else 1 + FirstAt(objects, refs[1..], p)
  }

  /** `hasAt`. */
  function HasAt(c: AgentCollection, p: Vec2): (r: bool)
    requires forall i :: 0 <= i < |c.agents| ==> c.agents[i] < |c.objects|
    ensures r <==> Occupied(c, p)
  {
    SafeGetAt(c, p).Some?
  }

  /** `getAt`: the caller asserts that some agent stands there. */
  function GetAt(c: AgentCollection, p: Vec2): (a: AgentRef)
    requires forall i :: 0 <= i < |c.agents| ==> c.agents[i] < |c.objects|
    requires HasAt(c, p)
    ensures a in c.agents && a < |c.objects| && c.objects[a].position == p
  {
    SafeGetAt(c, p).value
  }

  /** With distinct positions, the agent at a cell is unique: whichever live
      agent stands at `p` is the one `safeGetAt` returns. */
  lemma SafeGetAtIsTheOccupant(c: AgentCollection, p: Vec2, i: int)
    requires Valid(c) && 0 <= i < |c.agents| && c.objects[c.agents[i]].position == p
    ensures SafeGetAt(c, p) == Some(c.agents[i])
  {
  }

  /** `getID`: the caller asserts that the agent was ever added. */
  function GetID(c: AgentCollection, a: AgentRef): (id: nat)
    requires a in c.ids
    ensures Valid(c) ==> 1 <= id < c.topId
    ensures Valid(c) ==> forall b :: b in c.ids && b != a ==> c.ids[b] != id
  {
    c.ids[a]
  }

  /** `add`: the cell must be free; the agent gets the next ID and goes last. */
  function Add(c: AgentCollection, a: AgentRef): (r: AgentCollection)
    requires forall i :: 0 <= i < |c.agents| ==> c.agents[i] < |c.objects|
    requires a < |c.objects| && !HasAt(c, c.objects[a].position)
    ensures r.agents == c.agents + [a] && r.objects == c.objects
    ensures r.ids == c.ids[a := c.topId] && r.topId == c.topId + 1
    ensures Valid(c) ==> Valid(r)
    ensures Valid(c) ==> forall b :: b in c.ids ==> c.ids[b] < r.ids[a]
  {
    var r := AgentCollection(c.objects, c.agents + [a], c.ids[a := c.topId], c.topId + 1);
    assert forall i :: 0 <= i < |c.agents| ==> c.objects[c.agents[i]].position != c.objects[a].position;
    r
  }

  /** `delete`: the agent must be live; it leaves the list, keeps its ID, and
      its object (and so its position) stays as it was. In a duplicate-free
      list exactly its slot goes and the others keep their order. */
  function Delete(c: AgentCollection, a: AgentRef): (r: AgentCollection)
    requires Has(c, a)
    ensures !Has(r, a)
    ensures forall b :: b != a ==> (Has(r, b) <==> Has(c, b))
    ensures NoDups(c.agents) ==> RemovesOneSlot(c.agents, a, r.agents)
    ensures r.objects == c.objects && r.ids == c.ids && r.topId == c.topId
    ensures Valid(c) ==> Valid(r)
  {
    var r := c.(agents := Without(c.agents, a));
    assert NoDups(c.agents) ==> RemovesOneSlot(c.agents, a, r.agents) by {
      if NoDups(c.agents) {
        WithoutSingle(c.agents, IndexOf(c.agents, a));
      }
    }
    assert Valid(c) ==> DistinctPositions(r) by {
      if Valid(c) {
        DeleteKeepsDistinct(c, a);
      }
    }
    r
  }

  lemma DeleteKeepsDistinct(c: AgentCollection, a: AgentRef)
    requires forall i :: 0 <= i < |c.agents| ==> c.agents[i] < |c.objects|
    requires NoDups(c.agents) && DistinctPositions(c) && Has(c, a)
    ensures var rest := Without(c.agents, a); forall i :: 0 <= i < |rest| ==> rest[i] < |c.objects|
    ensures DistinctPositions(c.(agents := Without(c.agents, a)))
  {
    var k := IndexOf(c.agents, a);
    WithoutSingle(c.agents, k);
    var rest := Without(c.agents, a);
    assert |rest| == |c.agents| - 1;
    forall i | 0 <= i < |rest|
      ensures rest[i] == c.agents[if i < k then i else i + 1]
    {
      if i < k {
        assert rest[i] == c.agents[..k][i];
      } else {
        assert rest[i] == c.agents[k+1..][i - k];
      }
    }
    var r := c.(agents := rest);
    forall i, j | 0 <= i < j < |rest|
      ensures r.objects[r.agents[i]].position != r.objects[r.agents[j]].position
    {
      var i' := if i < k then i else i + 1;
      var j' := if j < k then j else j + 1;
      assert i' < j';
    }
  }

  /** The raw move the step loop performs (`_setPosition`), with no occupancy check. */
  function MoveAgent(c: AgentCollection, a: AgentRef, p: Vec2): (r: AgentCollection)
    requires a < |c.objects|
    ensures r.objects == c.objects[a := Move(c.objects[a], p)]
    ensures r.agents == c.agents && r.ids == c.ids && r.topId == c.topId
    ensures Valid(c) && !HasAt(c, p) ==> Valid(r)
  {
    var r := c.(objects := c.objects[a := Move(c.objects[a], p)]);
    assert Valid(c) && !HasAt(c, p) ==> DistinctPositions(r) by {
      if Valid(c) && !HasAt(c, p) {
        assert forall i :: 0 <= i < |c.agents| ==> c.objects[c.agents[i]].position != p;
      }
    }
    r
  }

  /** `setAgentPosition`: the cell must be free; then the agent moves there. */
  function SetAgentPosition(c: AgentCollection, a: AgentRef, p: Vec2): (r: AgentCollection)
    requires forall i :: 0 <= i < |c.agents| ==> c.agents[i] < |c.objects|
    requires a < |c.objects| && !HasAt(c, p)
    ensures |r.objects| == |c.objects|
    ensures r.objects[a].position == p && r.objects[a].lastPosition == Some(c.objects[a].position)
    ensures forall b :: 0 <= b < |c.objects| && b != a ==> r.objects[b] == c.objects[b]
    ensures r.agents == c.agents
    ensures Valid(c) ==> Valid(r)
  {
    MoveAgent(c, a, p)
  }

  /** `agent.setTarget` on an agent of the collection. */
  function SetAgentTarget(c: AgentCollection, a: AgentRef, t: Target): (r: AgentCollection)
    requires a < |c.objects| && TargetExists(c, t)
    ensures |r.objects| == |c.objects|
    ensures r.objects[a].target == t && r.objects[a].position == c.objects[a].position
    ensures r.objects[a].lastPosition == c.objects[a].lastPosition
    ensures forall b :: 0 <= b < |c.objects| && b != a ==> r.objects[b] == c.objects[b]
    ensures r.agents == c.agents
    ensures Valid(c) ==> Valid(r)
  {
    c.(objects := c.objects[a := SetTarget(c.objects[a], t)])
  }

  /** The first agent ever added gets ID 1, wherever it stands and whatever
      coordinate it heads for (a new collection has no agent to chase). */
  lemma FirstIdIsOne(position: Vec2, target: Target)
    requires TargetExists(NewCollection(), target)
    ensures var (r, c) := Create(NewCollection(), position, target);
      GetID(Add(c, r), r) == 1
  {
    var (r, c) := Create(NewCollection(), position, target);
    assert !Occupied(c, c.objects[r].position);
  }

  /** A chaser's target position follows the chased agent when it moves,
      whether or not the chased agent is still in the collection. */
  lemma ChaseFollowsMove(c: AgentCollection, chaser: AgentRef, p: Vec2)
    requires chaser < |c.objects| && c.objects[chaser].target.Chase?
    requires c.objects[chaser].target.agent < |c.objects|
    requires c.objects[chaser].target.agent != chaser
    ensures var r := MoveAgent(c, c.objects[chaser].target.agent, p);
      TargetPosition(r.objects, r.objects[chaser]) == p
  {
  }

  /** Deleting the chased agent leaves the chaser's target position where it was. */
  lemma DeleteFreezesTarget(c: AgentCollection, chased: AgentRef, chaser: AgentRef)
    requires Valid(c) && Has(c, chased) && chaser < |c.objects|
    ensures TargetPosition(Delete(c, chased).objects, Delete(c, chased).objects[chaser])
         == TargetPosition(c.objects, c.objects[chaser])
  {
  }
}
