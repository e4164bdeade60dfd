/** The objects behind the event protocol: Poco/Delegate.h, Poco/DefaultStrategy.h and the parts of
    Poco/AbstractEvent.h that use them. EventProtocol takes their steps as atomic. */
module Events {
  import opened Outcomes
  import opened Sequences
  import opened EventProtocol

  class Delegate {
    var receiverObject: Option<nat>
    var receiverMethod: nat

    function View(): Target
      reads this
    {
      Target(receiverObject, receiverMethod)
    }

    constructor (obj: Option<nat>, callee: nat)
      ensures View() == Target(obj, callee)
    {
      receiverObject, receiverMethod := obj, callee;
    }

    /** operator = */
    method Assign(other: Delegate)
      modifies this
      ensures View() == old(other.View())
    {
      if other != this {
        receiverObject := other.receiverObject;
        receiverMethod := other.receiverMethod;
      }
    }

    /** Calls the receiver, unless there is none; `called` is that call. */
    method Notify() returns (called: Option<Target>)
      ensures called == if View().receiver.Some? then Some(View()) else None
    {
      if receiverObject.Some? {
        called := Some(View());
      } else {
        called := None;
      }
    }

    predicate Equals(other: Delegate)
      reads this, other
    {
      receiverObject == other.receiverObject && receiverMethod == other.receiverMethod
    }

    method Clone() returns (copy: Delegate)
      ensures fresh(copy) && copy.View() == View()
    {
      copy := new Delegate(receiverObject, receiverMethod);
    }

    method Disable()
      modifies this`receiverObject
      ensures View() == old(View()).(receiver := None)
    {
      receiverObject := None;
    }
  }

  /** The present targets of a list of delegates. */
  function Views(ds: seq<Delegate>): (ts: seq<Target>)
    reads ds
    ensures |ts| == |ds| && forall i :: 0 <= i < |ts| ==> ts[i] == ds[i].View()
  {
    if ds == [] then [] else [ds[0].View()] + Views(ds[1..])
  }

  /** The calls made when a list is notified: to the targets at these places, which are those that have
      a receiver, in the order of the list. */
  ghost predicate CalledAt(ts: seq<Target>, called: seq<Target>, places: seq<nat>) {
    && |called| == |places| && Ascending(places, |ts|)
    && (forall i :: 0 <= i < |places| ==> called[i] == ts[places[i]])
    && (forall p :: 0 <= p < |ts| ==> (p in places <==> ts[p].receiver.Some?))
  }

  lemma CalledNext(ts: seq<Target>, called: seq<Target>, places: seq<nat>, t: Target)
    requires CalledAt(ts, called, places)
    ensures t.receiver.Some? ==> CalledAt(ts + [t], called + [t], places + [|ts|])
    ensures t.receiver.None? ==> CalledAt(ts + [t], called, places)
  {
  }

  /** The delegate at place i was disabled and taken out of the list; the length stands for none. */
  ghost predicate Erased(before: seq<Delegate>, after: seq<Delegate>, i: nat)
    reads before
  {
    if i < |before| then after == EraseAt(before, i) && before[i].receiverObject.None? else after == before
  }

  class DefaultStrategy {
    var delegates: seq<Delegate>

    ghost predicate Valid()
      reads this
    {
      DistinctSeq(delegates)
    }

    constructor ()
      ensures Valid() && delegates == []
    {
      delegates := [];
    }

    /** The copy has its own list, but the delegates in it are shared. */
    constructor Copy(s: DefaultStrategy)
      requires s.Valid()
      ensures Valid() && delegates == s.delegates
    {
      delegates := s.delegates;
    }

    method Notify() returns (called: seq<Target>, ghost places: seq<nat>)
      ensures CalledAt(Views(delegates), called, places)
    {
      called, places := [], [];
      ghost var ts := Views(delegates);
      for i := 0 to |delegates|
        invariant CalledAt(ts[..i], called, places)
      {
        CalledNext(ts[..i], called, places, ts[i]);
        assert ts[..i + 1] == ts[..i] + [ts[i]];
        var c := delegates[i].Notify();
        if c.Some? {
          called, places := called + [c.value], places + [i];
        }
      }
      assert ts[..|ts|] == ts;
    }

    method Add(delegate: Delegate)
      requires Valid()
      modifies this
      ensures Valid() && |delegates| == |old(delegates)| + 1 && delegates[..|old(delegates)|] == old(delegates)
      ensures fresh(delegates[|old(delegates)|]) && delegates[|old(delegates)|].View() == delegate.View()
    {
      var copy := delegate.Clone();
      delegates := delegates + [copy];
    }

    /** The place of the first delegate equal to the given one, or the length of the list. */
    ghost function Place(delegate: Delegate): (i: nat)
      reads this, delegates, delegate
      ensures i <= |delegates| && (i < |delegates| ==> delegates[i].View() == delegate.View())
      ensures forall j :: 0 <= j < i ==> delegates[j].View() != delegate.View()
    {
      IndexOf(Views(delegates), delegate.View())
    }

    /** The delegate at a place, if there is one. */
    ghost function At(i: nat): set<Delegate>
      reads this
    {
      if i < |delegates| then {delegates[i]} else {}
    }

    /** Disables and erases the first delegate equal to the given one, and touches no other. */
    method Remove(delegate: Delegate)
      requires Valid()
      modifies `delegates, At(Place(delegate))`receiverObject
      ensures Valid()
      ensures Erased(old(delegates), delegates, old(Place(delegate)))
    {
      var it := 0;
      while it != |delegates| && !delegate.Equals(delegates[it])
        modifies {}
        invariant it <= |delegates|
        invariant forall j :: 0 <= j < it ==> delegates[j].View() != delegate.View()
      {
        it := it + 1;
      }
      assert it == Place(delegate);
      if it != |delegates| {
        delegates[it].Disable();
        delegates := EraseAt(delegates, it);
      }
    }

    method Clear()
      requires Valid()
      modifies this, delegates
      ensures Valid() && delegates == []
      ensures forall i :: 0 <= i < |old(delegates)| ==>
                old(delegates)[i].View() == old(delegates[i].View()).(receiver := None)
    {
      for i := 0 to |delegates|
        invariant delegates == old(delegates)
        invariant forall j :: 0 <= j < i ==> delegates[j].View() == old(delegates[j].View()).(receiver := None)
        invariant forall j :: i <= j < |delegates| ==> delegates[j].View() == old(delegates[j].View())
      {
        delegates[i].Disable();
      }
      delegates := [];
    }
  }

  /** The list ds consists of the objects with the numbers ids. */
  ghost predicate Shares(ds: seq<Delegate>, objects: seq<Delegate>, ids: seq<nat>) {
    |ds| == |ids| && forall i :: 0 <= i < |ids| ==> ids[i] < |objects| && ds[i] == objects[ids[i]]
  }

  /** Every object is in the state that the heap of the protocol says. */
  ghost predicate Mirrors(objects: seq<Delegate>, heap: seq<Target>)
    reads objects
  {
    |objects| == |heap| && forall d :: 0 <= d < |objects| ==> objects[d].View() == heap[d]
  }

  lemma SharedDistinct(ds: seq<Delegate>, objects: seq<Delegate>, ids: seq<nat>)
    requires Shares(ds, objects, ids) && DistinctSeq(objects) && Ascending(ids, |objects|)
    ensures DistinctSeq(ds)
    ensures forall d :: 0 <= d < |objects| && d !in ids ==> objects[d] !in ds
  {
  }

  lemma EraseShares(ds: seq<Delegate>, objects: seq<Delegate>, ids: seq<nat>, i: nat)
    requires Shares(ds, objects, ids) && i < |ids|
    ensures Shares(EraseAt(ds, i), objects, EraseAt(ids, i))
  {
  }

  /** The list of delegates looks to a removal as the protocol says. */
  lemma SharedViews(ds: seq<Delegate>, objects: seq<Delegate>, s: State)
    requires Mirrors(objects, s.heap) && Shares(ds, objects, s.live)
    ensures Views(ds) == Targets(s)
  {
  }

  /** A notify under way: its copy of the strategy and how far the loop over it has come. */
  class Notification {
    const copy: DefaultStrategy
    var next: nat
    /** The number of its flight in the protocol. */
    ghost const number: nat

    constructor (copy: DefaultStrategy, ghost number: nat)
      ensures this.copy == copy && next == 0 && this.number == number
    {
      this.copy, next, this.number := copy, 0, number;
    }
  }

  /** The event. What it does under one lock is proved to be a step of EventProtocol; while a clear keeps
      the event's lock, only CallNext and the clear itself can run. */
  class Event {
    const strategy: DefaultStrategy
    var enabled: bool
    /** The state of the protocol, and the delegate objects that its numbers stand for. */
    ghost var state: State
    ghost var objects: seq<Delegate>

    /** The objects are as the state of the protocol says. */
    ghost predicate Linked()
      reads this, strategy, objects
    {
      && enabled == state.enabled && DistinctSeq(objects) && Mirrors(objects, state.heap)
      && Shares(strategy.delegates, objects, state.live)
    }

    ghost predicate Valid()
      reads this, strategy, objects
    {
      Good(state) && Linked()
    }

    /** The notification walks over the list that its flight in the protocol walks over. */
    ghost predicate Flying(n: Notification)
      reads this, n, n.copy
    {
      && n.number < |state.flights| && n.next == state.flights[n.number].next
      && Shares(n.copy.delegates, objects, state.flights[n.number].snapshot)
    }

    constructor ()
      ensures Valid() && state == INITIAL && fresh(strategy)
    {
      strategy := new DefaultStrategy();
      enabled := true;
      state, objects := INITIAL, [];
    }

    /** operator += */
    method AddDelegate(delegate: Delegate)
      requires Valid() && state.clearing.None?
      modifies this, strategy
      ensures Valid() && state == Step(old(state), Label.Add(delegate.View()))
      ensures old(objects) <= objects
      ensures var n := |old(strategy.delegates)|;
              && |strategy.delegates| == n + 1 && strategy.delegates[..n] == old(strategy.delegates)
              && fresh(strategy.delegates[n]) && strategy.delegates[n].View() == delegate.View()
    {
      SharedDistinct(strategy.delegates, objects, state.live);
      StepGood(state, Label.Add(delegate.View()));
      strategy.Add(delegate);
      objects := objects + [strategy.delegates[|strategy.delegates| - 1]];
      state := Step(state, Label.Add(delegate.View()));
    }

    /** operator -= */
    method RemoveDelegate(delegate: Delegate)
      requires Valid() && state.clearing.None?
      modifies `state, strategy`delegates, strategy.At(strategy.Place(delegate))`receiverObject
      ensures Valid() && state == Step(old(state), Label.Remove(old(delegate.View())))
      ensures Erased(old(strategy.delegates), strategy.delegates, old(strategy.Place(delegate)))
    {
      ghost var s, i := state, strategy.Place(delegate);
      StepGood(s, Label.Remove(delegate.View()));
      SharedViews(strategy.delegates, objects, s);
      RemoveShared(delegate, s);
      MoveTo(RemoveAt(s, i));
    }

    method RemoveShared(delegate: Delegate, ghost s: State)
      requires Ascending(s.live, |s.heap|) && DistinctSeq(objects)
      requires Mirrors(objects, s.heap) && Shares(strategy.delegates, objects, s.live)
      modifies strategy`delegates, strategy.At(strategy.Place(delegate))`receiverObject
      ensures Erased(old(strategy.delegates), strategy.delegates, old(strategy.Place(delegate)))
      ensures Mirrors(objects, RemoveAt(s, old(strategy.Place(delegate))).heap)
      ensures Shares(strategy.delegates, objects, RemoveAt(s, old(strategy.Place(delegate))).live)
    {
      ghost var ds, i := strategy.delegates, strategy.Place(delegate);
      SharedDistinct(ds, objects, s.live);
      strategy.Remove(delegate);
      if i < |ds| {
        EraseShares(ds, objects, s.live, i);
        forall d | 0 <= d < |objects| && d != s.live[i] ensures objects[d].View() == s.heap[d] {
          assert objects[d] != ds[i];
        }
      }
    }

    /** Records the step that the objects have made. */
    ghost method MoveTo(s: State)
      requires Good(s) && enabled == s.enabled
      requires DistinctSeq(objects) && Mirrors(objects, s.heap) && Shares(strategy.delegates, objects, s.live)
      modifies `state
      ensures Valid() && state == s
    {
      state := s;
    }

    /** clear: takes the event's lock, which it keeps until EndClear. */
    method BeginClear()
      requires Valid() && state.clearing.None?
      modifies `state
      ensures Valid() && state == Step(old(state), ClearBegin)
    {
      MoveTo(Step(state, ClearBegin));
    }

    /** One round of the loop in clear: disables the delegate at place `it`. */
    method ClearNext(it: nat)
      requires Valid() && state.clearing == Some(it) && it < |strategy.delegates|
      modifies `state, strategy.delegates[it]
      ensures Valid() && state == Step(old(state), Label.ClearNext) && strategy.delegates[it].receiverObject.None?
    {
      StepGood(state, Label.ClearNext);
      DisableShared(it, state.heap, state.live);
      MoveTo(Step(state, Label.ClearNext));
    }

    method DisableShared(it: nat, ghost heap: seq<Target>, ghost live: seq<nat>)
      requires it < |strategy.delegates| && DistinctSeq(objects)
      requires Mirrors(objects, heap) && Shares(strategy.delegates, objects, live)
      modifies strategy.delegates[it]
      ensures strategy.delegates[it].receiverObject.None?
      ensures Mirrors(objects, DisableAt(heap, live[it]))
    {
      strategy.delegates[it].Disable();
      forall d | 0 <= d < |objects| && d != live[it] ensures objects[d].View() == heap[d] {
        assert objects[d] != objects[live[it]];
      }
    }

    /** Empties the list and gives the lock back. */
    method EndClear()
      requires Valid() && state.clearing == Some(|strategy.delegates|)
      modifies `state, strategy`delegates
      ensures Valid() && state == Step(old(state), ClearEnd) && strategy.delegates == []
    {
      StepGood(state, ClearEnd);
      strategy.delegates := [];
      MoveTo(Step(state, ClearEnd));
    }

    /** A whole clear during which no notification makes a call. */
    method Clear()
      requires Valid() && state.clearing.None?
      modifies `state, strategy, strategy.delegates
      ensures Valid() && state == Step(ClearedTo(old(state), |old(state.live)|), ClearEnd)
      ensures strategy.delegates == [] && forall i :: 0 <= i < |old(strategy.delegates)| ==> old(strategy.delegates)[i].receiverObject.None?
    {
      ghost var s := state;
      WholeClear(s);
      ClearShared(s);
      MoveTo(Step(ClearedTo(s, |s.live|), ClearEnd));
    }

    method ClearShared(ghost s: State)
      requires Mirrors(objects, s.heap) && Shares(strategy.delegates, objects, s.live)
      requires DistinctSeq(strategy.delegates)
      requires forall d :: 0 <= d < |s.heap| && d !in s.live ==> s.heap[d].receiver.None?
      modifies strategy, strategy.delegates
      ensures strategy.delegates == [] && forall i :: 0 <= i < |old(strategy.delegates)| ==> old(strategy.delegates)[i].receiverObject.None?
      ensures forall d :: 0 <= d < |objects| ==> objects[d].View() == s.heap[d].(receiver := None)
    {
      ghost var ds := strategy.delegates;
      strategy.Clear();
      forall d | 0 <= d < |objects| ensures objects[d].View() == s.heap[d].(receiver := None) {
        if d in s.live {
          var j :| 0 <= j < |s.live| && s.live[j] == d;
          assert objects[d] == ds[j];
        }
      }
    }

    method Enable()
      requires Valid() && state.clearing.None?
      modifies `enabled, `state
      ensures Valid() && state == Step(old(state), Label.Enable) && enabled
    {
      enabled := true;
      state := Step(state, Label.Enable);
    }

    method Disable()
      requires Valid() && state.clearing.None?
      modifies `enabled, `state
      ensures Valid() && state == Step(old(state), Label.Disable) && !enabled
    {
      enabled := false;
      state := Step(state, Label.Disable);
    }

    /** The locked part of notify: the copy, or nothing to walk over if the event is disabled. */
    method StartNotify() returns (n: Notification)
      requires Valid() && state.clearing.None?
      modifies `state
      ensures Valid() && state == Step(old(state), Start)
      ensures fresh(n) && fresh(n.copy) && Flying(n) && n.number == |old(state).flights|
      ensures n.next == 0 && n.copy.delegates == if enabled then strategy.delegates else []
    {
      SharedDistinct(strategy.delegates, objects, state.live);
      StepGood(state, Start);
      var copy;
      if enabled {
        copy := new DefaultStrategy.Copy(strategy);
      } else {
        copy := new DefaultStrategy();
      }
      n := new Notification(copy, |state.flights|);
      state := Step(state, Start);
    }

    /** One round of the loop over the copy; `called` is the call it makes. */
    method CallNext(n: Notification) returns (called: Option<Target>)
      requires Valid() && Flying(n) && n.next < |n.copy.delegates|
      modifies `state, n
      ensures Valid() && Flying(n) && state == Step(old(state), Call(n.number)) && n.next == old(n.next) + 1
      ensures called == var t := n.copy.delegates[old(n.next)].View(); if t.receiver.Some? then Some(t) else None
      ensures state.flights[n.number].invoked ==
              old(state.flights[n.number].invoked) +
              if called.Some? then [old(state).flights[n.number].snapshot[old(n.next)]] else []
    {
      StepGood(state, Call(n.number));
      called := n.copy.delegates[n.next].Notify();
      n.next := n.next + 1;
      state := Step(state, Call(n.number));
    }

    /** A whole notify during which nothing else happens. */
    method Notify() returns (called: seq<Target>, ghost places: seq<nat>)
      requires Valid() && state.clearing.None?
      ensures if enabled then CalledAt(Views(strategy.delegates), called, places) else called == []
    {
      SharedDistinct(strategy.delegates, objects, state.live);
      if !enabled {
        return [], [];
      }
      var copy := new DefaultStrategy.Copy(strategy);
      called, places := copy.Notify();
    }
  }

  /** A step of one event leaves the walks of all other notifications as they were: their flights do
      not change, and the objects they walk over stay the same. */
  lemma OthersKeepFlying(s: State, l: Label, ds: seq<Delegate>, objects: seq<Delegate>, objects': seq<Delegate>, n: nat)
    requires Good(s) && n < |s.flights| && l != Call(n) && objects <= objects'
    requires Shares(ds, objects, s.flights[n].snapshot)
    ensures n < |Step(s, l).flights| && Step(s, l).flights[n] == s.flights[n]
    ensures Shares(ds, objects', Step(s, l).flights[n].snapshot)
  {
    StepKeeps(s, l);
  }
}
