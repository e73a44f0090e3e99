/**
 Agent.ts: an agent has a position, the position it held before its last
 move (none until it first moves) and a target, which is either a fixed
 coordinate or another agent. Agents are compared by identity in the source;
 here an agent is named by an `AgentRef`, its index in the collection's
 sequence of every agent ever created (see AgentCollections).
 */
module Agents {
  import opened Nullable
  import opened Vector2

  /** The identity of an agent object. */
  type AgentRef = nat

  /** `TTarget`: a coordinate, or the agent to chase. */
  datatype Target = Spot(position: Vec2) | Chase(agent: AgentRef)

  datatype Agent = Agent(position: Vec2, lastPosition: Option<Vec2>, target: Target)

  /** The constructor: placed at `position`, no previous position yet. */
  function NewAgent(position: Vec2, target: Target): (a: Agent)
    ensures a.position == position && a.target == target
    ensures a.lastPosition == None
  {
    Agent(Clone(position), None, target)
  }

  /** `setTarget`: only the target changes. */
  function SetTarget(a: Agent, target: Target): (r: Agent)
    ensures r.target == target
    ensures r.position == a.position && r.lastPosition == a.lastPosition
  {
    a.(target := target)
  }

  /** `_setPosition`: the current position becomes the last one. No occupancy
      check is made here; the collection's `setAgentPosition` makes it. */
  function Move(a: Agent, position: Vec2): (r: Agent)
    ensures r.position == position && r.lastPosition == Some(a.position)
    ensures r.target == a.target
  {
    Agent(Clone(position), Some(Clone(a.position)), a.target)
  }

  /** `getTargetPosition`: the coordinate itself, or where the chased agent
      (looked up among all agents ever created) currently stands. */
  function TargetPosition(objects: seq<Agent>, a: Agent): (p: Vec2)
    requires a.target.Chase? ==> a.target.agent < |objects|
    ensures a.target.Spot? ==> p == a.target.position
    ensures a.target.Chase? ==> p == objects[a.target.agent].position
  {
    match a.target
    case Spot(q) => q
    case Chase(other) => objects[other].position
  }

  /** The two mutators an agent offers. */
  datatype Change = Retarget(target: Target) | MoveTo(position: Vec2)

  function Apply(a: Agent, changes: seq<Change>): Agent
    decreases |changes|
  {
    if |changes| == 0 then a
    else
      var b := match changes[0]
        case Retarget(t) => SetTarget(a, t)
        case MoveTo(p) => Move(a, p);
      Apply(b, changes[1..])
  }

  predicate Moves(changes: seq<Change>) {
    exists i :: 0 <= i < |changes| && changes[i].MoveTo?
  }

  /** After any history of changes, a fresh agent has a last position exactly
      when it has moved at least once, and retargeting never moves it. */
  lemma {:induction false} LastPositionOnlyAfterMove(a: Agent, changes: seq<Change>)
    requires a.lastPosition == None
    ensures Apply(a, changes).lastPosition.None? <==> !Moves(changes)
    ensures !Moves(changes) ==> Apply(a, changes).position == a.position
    decreases |changes|
  {
    if |changes| > 0 {
      var rest := changes[1..];
      assert forall i :: 0 <= i < |rest| ==> rest[i] == changes[i + 1];
      match changes[0]
      case Retarget(t) =>
        LastPositionOnlyAfterMove(SetTarget(a, t), rest);
        assert Moves(changes) <==> Moves(rest);
      case MoveTo(p) =>
        assert Moves(changes);
        KeepsLastPosition(Move(a, p), rest);
    }
  }

  /** Once an agent has a last position it never loses it. */
  lemma {:induction false} KeepsLastPosition(a: Agent, changes: seq<Change>)
    requires a.lastPosition.Some?
    ensures Apply(a, changes).lastPosition.Some?
    decreases |changes|
  {
    if |changes| > 0 {
      match changes[0]
      case Retarget(t) => KeepsLastPosition(SetTarget(a, t), changes[1..]);
      case MoveTo(p) => KeepsLastPosition(Move(a, p), changes[1..]);
    }
  }
}
