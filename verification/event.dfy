/**
 The observer list of Event.ts: a duplicate-free sequence of listeners, in
 registration order. A listener is any value with equality (the source
 compares closures by identity); dispatching is modelled as the sequence of
 calls it makes.
 */
module Events {
  import opened Seqs

  datatype Event<L> = Event(listeners: seq<L>)

  /** One call a dispatch makes: this listener, with these arguments. */
  datatype Call<L, A> = Call(listener: L, args: A)

  function NewEvent<L>(): (e: Event<L>)
    ensures e.listeners == []
  {
    Event([])
  }

  /** The invariant every operation keeps: no listener is registered twice. */
  ghost predicate Valid<L>(e: Event<L>) {
    NoDups(e.listeners)
  }

  /** `addListener`: the listener must not be registered yet; it goes to the end. */
  function AddListener<L(==)>(e: Event<L>, listener: L): (r: Event<L>)
    requires listener !in e.listeners
    ensures |r.listeners| == |e.listeners| + 1
    ensures r.listeners[..|e.listeners|] == e.listeners
    ensures r.listeners[|e.listeners|] == listener
    ensures Valid(e) ==> Valid(r)
  {
    Event(e.listeners + [listener])
  }

  /** `removeListener`: the listener must be registered; it is the only one removed,
      and the others keep their order. */
  function RemoveListener<L(==)>(e: Event<L>, listener: L): (r: Event<L>)
    requires listener in e.listeners
    ensures listener !in r.listeners
    ensures |r.listeners| < |e.listeners|
    ensures Valid(e) ==> Valid(r)
    ensures Valid(e) ==>
      (exists i :: 0 <= i < |e.listeners| && e.listeners[i] == listener &&
                   r.listeners == e.listeners[..i] + e.listeners[i+1..])
  {
    var r := Event(Without(e.listeners, listener));
    if NoDups(e.listeners) then
      WithoutSingle(e.listeners, IndexOf(e.listeners, listener));
      r
    else
      r
  }

  /** `dispatch`: one call per registered listener, in registration order. */
  function Dispatch<L, A>(e: Event<L>, args: A): (calls: seq<Call<L, A>>)
    ensures |calls| == |e.listeners|
    ensures forall i :: 0 <= i < |calls| ==> calls[i] == Call(e.listeners[i], args)
  {
    seq(|e.listeners|, i requires 0 <= i < |e.listeners| => Call(e.listeners[i], args))
  }

  function CallsTo<L(==), A>(calls: seq<Call<L, A>>, listener: L): nat {
    if |calls| == 0 then 0
    else (if calls[0].listener == listener then 1 else 0) + CallsTo(calls[1..], listener)
  }

  /** Since the list has no duplicates, a dispatch calls every registered listener
      exactly once and no other listener at all. */
  lemma DispatchCallsEachListenerOnce<L, A>(e: Event<L>, args: A, listener: L)
    requires Valid(e)
    ensures CallsTo(Dispatch(e, args), listener) == (if listener in e.listeners then 1 else 0)
  {
    CountCalls(e.listeners, args, listener);
  }

  lemma {:induction false} CountCalls<L, A>(ls: seq<L>, args: A, listener: L)
    requires NoDups(ls)
    ensures CallsTo(Dispatch(Event(ls), args), listener) == (if listener in ls then 1 else 0)
  {
    if |ls| > 0 {
      var calls := Dispatch(Event(ls), args);
      assert calls[1..] == Dispatch(Event(ls[1..]), args);
      assert NoDups(ls[1..]);
      CountCalls(ls[1..], args, listener);
      assert ls[0] !in ls[1..];
      assert listener in ls <==> listener == ls[0] || listener in ls[1..];
    }
  }
}
