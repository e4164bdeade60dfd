/** Event delivery (Poco/AbstractEvent.h, DefaultStrategy.h, Delegate.h) as a state machine: any
    number of notifications in flight, each walking over its own copy of the delegate list, whose
    delegate objects are shared with the live list, while delegates come and go. */
module EventProtocol {
  import opened Outcomes
  import opened Sequences

  /** What a delegate calls: a method of a receiver object; no receiver when it is disabled. */
  datatype Target = Target(receiver: Option<nat>, callee: nat)

  /** One notify: the copied list of delegate objects, how far the walk has come, and the
      delegates whose methods it has called so far. */
  datatype Flight = Flight(snapshot: seq<nat>, next: nat, invoked: seq<nat>)

  /** Delegate objects are numbered in the order of their registration. `heap` is their present
      target, `registered` the target each was created with, `live` the list in the event. While a
      clear is under way, `clearing` is how many delegates of the list it has disabled. */
  datatype State = State(heap: seq<Target>, registered: seq<Target>, live: seq<nat>, enabled: bool,
                         clearing: Option<nat>, flights: seq<Flight>)

  /** The atomic steps. A clear takes the event's lock (ClearBegin), disables the delegates one by one,
      each under its own lock (ClearNext), and empties the list (ClearEnd). Call(n) is the next
      delegate's turn in notification n, under that delegate's lock alone. The others do all their
      work under the event's lock; what a removal does besides disabling one delegate, only holders
      of that lock can see. */
  datatype Label =
    | Add(t: Target) | Remove(t: Target) | ClearBegin | ClearNext | ClearEnd
    | Enable | Disable | Start | Call(n: nat)

  const INITIAL := State([], [], [], true, None, [])

  /** While a clear holds the event's lock, nothing but itself and the notifications can go on. */
  predicate Permitted(s: State, l: Label) {
    match s.clearing
    case None => l != ClearNext && l != ClearEnd
    case Some(k) => l.Call? || (l == ClearNext && k < |s.live|) || (l == ClearEnd && k == |s.live|)
  }

  ghost predicate Ascending(ids: seq<nat>, bound: nat) {
    && (forall i, j :: 0 <= i < j < |ids| ==> ids[i] < ids[j])
    && (forall i :: 0 <= i < |ids| ==> ids[i] < bound)
  }

  /** How many delegates at the beginning of the list a clear under way has disabled. */
  function Disabled(s: State): nat {
    if s.clearing.Some? then s.clearing.value else 0
  }

  /** The delegates that are in the list and that no clear under way has come to. */
  function Active(s: State): (ds: seq<nat>)
    ensures s.clearing.None? ==> ds == s.live
  {
    From(s.live, Disabled(s))
  }

  function From(live: seq<nat>, disabled: nat): seq<nat> {
    if disabled <= |live| then live[disabled..] else []
  }

  /** An active delegate is as it was registered, and every other one is disabled. */
  ghost predicate GoodList(heap: seq<Target>, registered: seq<Target>, live: seq<nat>, disabled: nat) {
    && |heap| == |registered| && disabled <= |live| && Ascending(live, |heap|)
    && (forall d :: d in From(live, disabled) ==> heap[d] == registered[d])
    && (forall d :: 0 <= d < |heap| && d !in From(live, disabled) ==> heap[d].receiver.None?)
  }

  ghost predicate GoodFlights(flights: seq<Flight>, bound: nat) {
    forall n :: 0 <= n < |flights| ==>
      flights[n].next <= |flights[n].snapshot| && Ascending(flights[n].snapshot, bound)
  }

  /** What holds in every reachable state. */
  ghost predicate Good(s: State) {
    GoodList(s.heap, s.registered, s.live, Disabled(s)) && GoodFlights(s.flights, |s.heap|)
  }

  function At(heap: seq<Target>, d: nat): Target {
    if d < |heap| then heap[d] else Target(None, 0)
  }

  function Targets(s: State): seq<Target> {
    seq(|s.live|, i requires 0 <= i < |s.live| => At(s.heap, s.live[i]))
  }

  function DisableAt(heap: seq<Target>, d: nat): (r: seq<Target>)
    ensures |r| == |heap|
  {
    if d < |heap| then heap[d := heap[d].(receiver := None)] else heap
  }

  /** Delegate::notify for the next delegate of the copy: it calls the receiver unless disabled. */
  function Advance(heap: seq<Target>, f: Flight): Flight
    requires f.next < |f.snapshot|
  {
    var d := f.snapshot[f.next];
    Flight(f.snapshot, f.next + 1, if At(heap, d).receiver.Some? then f.invoked + [d] else f.invoked)
  }

  /** Takes the delegate at place i out of the list, if there is one. */
  function RemoveAt(s: State, i: nat): State {
    if i < |s.live| then s.(heap := DisableAt(s.heap, s.live[i]), live := EraseAt(s.live, i)) else s
  }

  ghost function Step(s: State, l: Label): State {
    match l
    case Add(t) => s.(heap := s.heap + [t], registered := s.registered + [t], live := s.live + [|s.heap|])
    case Remove(t) => RemoveAt(s, IndexOf(Targets(s), t))
    case ClearBegin => s.(clearing := Some(0))
    case ClearNext =>
      var k := Disabled(s);
      if k < |s.live| then s.(heap := DisableAt(s.heap, s.live[k]), clearing := Some(k + 1)) else s
    case ClearEnd => s.(live := [], clearing := None)
    case Enable => s.(enabled := true)
    case Disable => s.(enabled := false)
    case Start => s.(flights := s.flights + [Flight(if s.enabled then s.live else [], 0, [])])
    case Call(n) =>
      if n < |s.flights| && s.flights[n].next < |s.flights[n].snapshot|
      then s.(flights := s.flights[n := Advance(s.heap, s.flights[n])])
      else s
  }

  lemma EraseMembers(ids: seq<nat>, bound: nat, i: nat)
    requires Ascending(ids, bound) && i < |ids|
    ensures Ascending(EraseAt(ids, i), bound)
    ensures forall d :: d in EraseAt(ids, i) <==> d in ids && d != ids[i]
  {
    var rest := EraseAt(ids, i);
    forall d | d in ids && d != ids[i] ensures d in rest {
      var j :| 0 <= j < |ids| && ids[j] == d;
      assert rest[if j < i then j else j - 1] == d;
    }
    forall d | d in rest ensures d in ids && d != ids[i] {
      var j :| 0 <= j < |rest| && rest[j] == d;
      assert d == ids[if j < i then j else j + 1];
    }
  }

  lemma RemoveGood(heap: seq<Target>, registered: seq<Target>, live: seq<nat>, i: nat)
    requires GoodList(heap, registered, live, 0) && i < |live|
    ensures GoodList(DisableAt(heap, live[i]), registered, EraseAt(live, i), 0)
  {
    EraseMembers(live, |heap|, i);
  }

  lemma AddGood(heap: seq<Target>, registered: seq<Target>, live: seq<nat>, t: Target)
    requires GoodList(heap, registered, live, 0)
    ensures GoodList(heap + [t], registered + [t], live + [|heap|], 0)
  {
    assert forall d :: d in live + [|heap|] <==> d in live || d == |heap|;
  }

  lemma ClearNextMembers(live: seq<nat>, bound: nat, k: nat)
    requires Ascending(live, bound) && k < |live|
    ensures forall d :: d in From(live, k + 1) <==> d in From(live, k) && d != live[k]
  {
    var rest := From(live, k + 1);
    assert From(live, k) == [live[k]] + rest;
    forall d | d in rest ensures d != live[k] {
      var i :| 0 <= i < |rest| && rest[i] == d;
      assert live[k + 1 + i] == d;
    }
  }

  lemma ClearNextGood(heap: seq<Target>, registered: seq<Target>, live: seq<nat>, k: nat)
    requires GoodList(heap, registered, live, k) && k < |live|
    ensures GoodList(DisableAt(heap, live[k]), registered, live, k + 1)
  {
    ClearNextMembers(live, |heap|, k);
  }

  lemma FlightsGood(s: State, l: Label)
    requires Good(s)
    ensures GoodFlights(Step(s, l).flights, |Step(s, l).heap|)
  {
  }

  lemma {:induction false} StepGood(s: State, l: Label)
    requires Good(s) && Permitted(s, l)
    ensures Good(Step(s, l))
  {
    FlightsGood(s, l);
    match l
    case Add(t) =>
      AddGood(s.heap, s.registered, s.live, t);
    case Remove(t) =>
      var i := IndexOf(Targets(s), t);
      if i < |s.live| {
        RemoveGood(s.heap, s.registered, s.live, i);
      }
    case ClearNext =>
      ClearNextGood(s.heap, s.registered, s.live, Disabled(s));
    case _ =>
  }

  /** The state after a clear has disabled k delegates and nothing else has happened. */
  ghost function ClearedTo(s: State, k: nat): State {
    if k == 0 then Step(s, ClearBegin) else Step(ClearedTo(s, k - 1), ClearNext)
  }

  lemma {:induction false} ClearedToHeap(s: State, k: nat)
    requires s.clearing.None? && k <= |s.live|
    ensures var s' := ClearedTo(s, k);
            && s' == s.(heap := s'.heap, clearing := Some(k)) && |s'.heap| == |s.heap|
            && (forall d :: 0 <= d < |s.heap| && d !in s.live ==> s'.heap[d] == s.heap[d])
            && (forall d :: 0 <= d < |s.heap| ==> s'.heap[d].callee == s.heap[d].callee)
  {
    if k != 0 {
      ClearedToHeap(s, k - 1);
      assert s.live[k - 1] in s.live;
    }
  }

  lemma {:induction false} ClearedToGood(s: State, k: nat)
    requires Good(s) && s.clearing.None? && k <= |s.live|
    ensures Good(ClearedTo(s, k))
  {
    if k == 0 {
      StepGood(s, ClearBegin);
    } else {
      ClearedToHeap(s, k - 1);
      ClearedToGood(s, k - 1);
      StepGood(ClearedTo(s, k - 1), ClearNext);
    }
  }

  /** A clear that nothing interferes with ends with an empty list, and has disabled the delegates that
      were in the list. */
  lemma {:induction false} WholeClear(s: State)
    requires Good(s) && s.clearing.None?
    ensures var s' := Step(ClearedTo(s, |s.live|), ClearEnd);
            && Good(s') && s' == s.(heap := s'.heap, live := []) && |s'.heap| == |s.heap|
            && forall d :: 0 <= d < |s.heap| ==> s'.heap[d] == s.heap[d].(receiver := None)
  {
    ClearedToHeap(s, |s.live|);
    ClearedToGood(s, |s.live|);
    StepGood(ClearedTo(s, |s.live|), ClearEnd);
  }

  /** A run: the steps taken and the states they lead through. */
  ghost predicate Execution(labels: seq<Label>, states: seq<State>) {
    && |states| == |labels| + 1 && states[0] == INITIAL
    && (forall i :: 0 <= i < |labels| ==> Permitted(states[i], labels[i]) && states[i + 1] == Step(states[i], labels[i]))
  }

  /** Every reachable state is good. */
  lemma {:induction false} ExecutionGood(labels: seq<Label>, states: seq<State>, i: nat)
    requires Execution(labels, states) && i < |states|
    ensures Good(states[i])
  {
    if i != 0 {
      ExecutionGood(labels, states, i - 1);
      StepGood(states[i - 1], labels[i - 1]);
    }
  }

  // ---------------------------------------------------------------- what a run leaves behind

  /** The event is switched off: since the last Disable there was no Enable. */
  ghost predicate SwitchedOff(labels: seq<Label>, i: nat)
    requires i <= |labels|
  {
    exists j: nat :: j < i && labels[j] == Disable && forall k :: j < k < i ==> labels[k] != Enable
  }

  lemma SwitchedOffNext(labels: seq<Label>, i: nat, end: nat)
    requires i < |labels| && end == i + 1
    ensures SwitchedOff(labels, end) <==> labels[i] == Disable || (labels[i] != Enable && SwitchedOff(labels, i))
  {
    if SwitchedOff(labels, end) {
      var j: nat :| j < end && labels[j] == Disable && forall k :: j < k < end ==> labels[k] != Enable;
    } else if SwitchedOff(labels, i) {
      var j: nat :| j < i && labels[j] == Disable && forall k :: j < k < i ==> labels[k] != Enable;
    }
  }

  /** An event is enabled unless it was disabled and not enabled again. */
  lemma {:induction false} EnabledByLabels(labels: seq<Label>, states: seq<State>, i: nat)
    requires Execution(labels, states) && i < |states|
    ensures states[i].enabled <==> !SwitchedOff(labels, i)
  {
    if i != 0 {
      EnabledByLabels(labels, states, i - 1);
      SwitchedOffNext(labels, i - 1, i);
    }
  }

  // ---------------------------------------------------------------- what a notify delivers

  /** The step disables delegate d, in order to take it out of the list. */
  ghost predicate Removes(s: State, l: Label, d: nat) {
    d in Active(s) &&
    ((l == ClearNext && s.live[Disabled(s)] == d) ||
     (l.Remove? && IndexOf(Targets(s), l.t) < |s.live| && s.live[IndexOf(Targets(s), l.t)] == d))
  }

  /** Some step of the run from position `from` on, before position `end`, removes d. */
  ghost predicate RemovedBetween(labels: seq<Label>, states: seq<State>, from: nat, end: nat, d: nat)
    requires end <= |labels| <= |states|
  {
    exists i :: from <= i < end && Removes(states[i], labels[i], d)
  }

  /** How many steps flight n has been given after step `start` and before position `end`. */
  function Calls(labels: seq<Label>, start: nat, end: nat, n: nat): nat
    requires start < end <= |labels|
    decreases end
  {
    if end == start + 1 then 0 else Calls(labels, start, end - 1, n) + if labels[end - 1] == Call(n) then 1 else 0
  }

  /** The delegate whose turn it is at position i was registered with a receiver and has not been
      removed since step `start`. */
  ghost predicate StillRegistered(labels: seq<Label>, states: seq<State>, start: nat, i: nat, d: nat)
    requires start <= i <= |labels| < |states|
  {
    && d < |states[start].registered| && states[start].registered[d].receiver.Some?
    && !RemovedBetween(labels, states, start, i, d)
  }

  /** What the notify that step `start` begins, flight n, should have called before position `end`,
      told from the list at its start and from the removals since. */
  ghost function Expected(labels: seq<Label>, states: seq<State>, start: nat, end: nat, n: nat): seq<nat>
    requires start < end <= |labels| < |states|
    decreases end
  {
    if end == start + 1 then [] else
    var before := Expected(labels, states, start, end - 1, n);
    var snapshot, turn := states[start].live, Calls(labels, start, end - 1, n);
    if labels[end - 1] == Call(n) && turn < |snapshot| && StillRegistered(labels, states, start, end - 1, snapshot[turn])
    then before + [snapshot[turn]]
    else before
  }

  lemma RemoveLive(s: State, t: Target, d: nat)
    requires Good(s) && s.clearing.None?
    ensures d in Active(Step(s, Remove(t))) <==> d in Active(s) && !Removes(s, Remove(t), d)
  {
    var i := IndexOf(Targets(s), t);
    if i >= |s.live| {
      return;
    }
    EraseMembers(s.live, |s.heap|, i);
    assert Step(s, Remove(t)).live == EraseAt(s.live, i);
  }

  lemma AddLive(s: State, t: Target, d: nat)
    requires s.clearing.None? && d < |s.heap|
    ensures d in Active(Step(s, Add(t))) <==> d in Active(s)
  {
  }

  lemma ClearNextLive(s: State, d: nat)
    requires Good(s) && Permitted(s, ClearNext)
    ensures d in Active(Step(s, ClearNext)) <==> d in Active(s) && !Removes(s, ClearNext, d)
  {
    ClearNextMembers(s.live, |s.heap|, Disabled(s));
  }

  lemma OtherLive(s: State, l: Label, d: nat)
    requires Good(s) && Permitted(s, l) && !l.Add? && !l.Remove? && l != ClearNext
    ensures Active(Step(s, l)) == Active(s) && !Removes(s, l, d)
  {
  }

  /** A delegate stays active exactly until a step removes it; it never returns. */
  lemma {:induction false} StepLive(s: State, l: Label, d: nat)
    requires Good(s) && Permitted(s, l) && d < |s.heap|
    ensures d in Active(Step(s, l)) <==> d in Active(s) && !Removes(s, l, d)
  {
    match l
    case Add(t) =>
      AddLive(s, t, d);
    case Remove(t) =>
      RemoveLive(s, t, d);
    case ClearNext =>
      ClearNextLive(s, d);
    case _ =>
      OtherLive(s, l, d);
  }

  /** No step shortens what is recorded, and only Call(n) touches flight n. */
  lemma StepKeeps(s: State, l: Label)
    ensures |s.heap| <= |Step(s, l).heap| && s.registered <= Step(s, l).registered
    ensures |s.flights| <= |Step(s, l).flights|
    ensures forall n :: 0 <= n < |s.flights| && l != Call(n) ==> Step(s, l).flights[n] == s.flights[n]
  {
  }

  /** What one call step adds to its flight: the delegate whose turn it is, if it is still active and
      was registered with a receiver. */
  lemma CallInvokes(s: State, n: nat)
    requires Good(s) && n < |s.flights| && s.flights[n].next < |s.flights[n].snapshot|
    ensures var f, s' := s.flights[n], Step(s, Call(n));
            var d := f.snapshot[f.next];
            && |s'.flights| == |s.flights| && d < |s.registered|
            && s'.flights[n] == Flight(f.snapshot, f.next + 1,
                 if s.registered[d].receiver.Some? && d in Active(s) then f.invoked + [d] else f.invoked)
  {
  }

  lemma RemovedNext(labels: seq<Label>, states: seq<State>, start: nat, i: nat, end: nat, d: nat)
    requires start <= i < |labels| <= |states| && end == i + 1
    ensures RemovedBetween(labels, states, start, end, d) <==>
            RemovedBetween(labels, states, start, i, d) || Removes(states[i], labels[i], d)
  {
  }

  lemma LiveNext(labels: seq<Label>, states: seq<State>, i: nat, d: nat)
    requires Execution(labels, states) && i < |labels| && d < |states[i].registered|
    ensures d < |states[i + 1].registered| && states[i + 1].registered[d] == states[i].registered[d]
    ensures d in Active(states[i + 1]) <==> d in Active(states[i]) && !Removes(states[i], labels[i], d)
  {
    ExecutionGood(labels, states, i);
    StepKeeps(states[i], labels[i]);
    StepLive(states[i], labels[i], d);
  }

  lemma {:induction false} LiveUntilRemoved(labels: seq<Label>, states: seq<State>, start: nat, end: nat, d: nat)
    requires Execution(labels, states) && start <= end <= |labels| && d in Active(states[start])
    ensures d < |states[end].registered| && d < |states[start].registered|
    ensures states[end].registered[d] == states[start].registered[d]
    ensures d in Active(states[end]) <==> !RemovedBetween(labels, states, start, end, d)
    decreases end
  {
    if end == start {
      ExecutionGood(labels, states, start);
    } else {
      var i := end - 1;
      LiveUntilRemoved(labels, states, start, i, d);
      LiveNext(labels, states, i, d);
      RemovedNext(labels, states, start, i, end, d);
    }
  }

  /** Only an Add makes a new delegate, and the new one is active. */
  lemma NewByAdd(labels: seq<Label>, states: seq<State>, i: nat)
    requires Execution(labels, states) && i < |labels|
    ensures states[i + 1].registered == states[i].registered + if labels[i].Add? then [labels[i].t] else []
    ensures |states[i].heap| == |states[i].registered| && |states[i + 1].heap| == |states[i + 1].registered|
    ensures labels[i].Add? ==> |states[i].heap| in Active(states[i + 1])
  {
    ExecutionGood(labels, states, i);
    ExecutionGood(labels, states, i + 1);
    if labels[i].Add? {
      assert states[i + 1].live[|states[i].live|] == |states[i].heap|;
    }
  }

  /** Step j registered delegate d, and no step before position `end` has removed it. */
  ghost predicate AddedAndKept(labels: seq<Label>, states: seq<State>, j: nat, end: nat, d: nat)
    requires j < end <= |labels| < |states|
  {
    labels[j].Add? && |states[j].heap| == d && !RemovedBetween(labels, states, j + 1, end, d)
  }

  lemma AddedAndKeptNext(labels: seq<Label>, states: seq<State>, j: nat, i: nat, end: nat, d: nat)
    requires j < i < |labels| < |states| && end == i + 1
    ensures AddedAndKept(labels, states, j, end, d) <==>
            AddedAndKept(labels, states, j, i, d) && !Removes(states[i], labels[i], d)
  {
    RemovedNext(labels, states, j + 1, i, end, d);
  }

  lemma {:induction false} AddedInHeap(labels: seq<Label>, states: seq<State>, j: nat, end: nat)
    requires Execution(labels, states) && j < end <= |labels| && labels[j].Add?
    ensures |states[j].heap| < |states[end].registered| == |states[end].heap|
    ensures states[end].registered[|states[j].heap|] == labels[j].t
    decreases end
  {
    NewByAdd(labels, states, end - 1);
    if j != end - 1 {
      AddedInHeap(labels, states, j, end - 1);
    }
  }

  /** A delegate is active exactly if some step added it and no later step has removed it; and it is
      registered with the target it was added with. */
  lemma {:induction false} ActiveSinceAdded(labels: seq<Label>, states: seq<State>, end: nat, d: nat)
    requires Execution(labels, states) && end <= |labels|
    ensures d in Active(states[end]) ==> exists j: nat :: j < end && AddedAndKept(labels, states, j, end, d)
    ensures forall j: nat :: j < end && AddedAndKept(labels, states, j, end, d) ==>
              d in Active(states[end]) && d < |states[end].registered| && states[end].registered[d] == labels[j].t
    decreases end
  {
    if end != 0 {
      var i := end - 1;
      ActiveSinceAdded(labels, states, i, d);
      NewByAdd(labels, states, i);
      ExecutionGood(labels, states, end);
      if d < |states[i].heap| {
        LiveNext(labels, states, i, d);
      }
      if d in Active(states[end]) {
        if d < |states[i].heap| {
          var j: nat :| j < i && AddedAndKept(labels, states, j, i, d);
          AddedAndKeptNext(labels, states, j, i, end, d);
        } else {
          assert AddedAndKept(labels, states, i, end, d);
        }
      }
      forall j: nat | j < end && AddedAndKept(labels, states, j, end, d)
        ensures d in Active(states[end]) && d < |states[end].registered| && states[end].registered[d] == labels[j].t
      {
        AddedInHeap(labels, states, j, end);
        if j < i {
          AddedInHeap(labels, states, j, i);
          AddedAndKeptNext(labels, states, j, i, end, d);
        }
      }
    }
  }

  /** What a flight looks like when it has been given `turn` steps. */
  function Walked(snapshot: seq<nat>, turn: nat, invoked: seq<nat>): Flight {
    Flight(snapshot, if turn < |snapshot| then turn else |snapshot|, invoked)
  }

  lemma TurnTaken(labels: seq<Label>, states: seq<State>, start: nat, i: nat, d: nat)
    requires Execution(labels, states) && start <= i < |labels| && labels[start] == Start && d in states[start].live
    ensures d < |states[i].registered| && d < |states[start].registered|
    ensures states[i].registered[d].receiver.Some? && d in Active(states[i]) <==>
            StillRegistered(labels, states, start, i, d)
  {
    LiveUntilRemoved(labels, states, start, i, d);
  }

  lemma DeliveryCall(labels: seq<Label>, states: seq<State>, start: nat, i: nat, end: nat, n: nat, turn: nat, invoked: seq<nat>)
    requires Execution(labels, states) && start <= i < |labels| && labels[start] == Start && labels[i] == Call(n)
    requires end == i + 1
    requires n < |states[i].flights| && states[i].flights[n] == Walked(states[start].live, turn, invoked)
    ensures n < |states[end].flights|
    ensures turn >= |states[start].live| ==> states[end].flights[n] == Walked(states[start].live, turn + 1, invoked)
    ensures turn < |states[start].live| ==>
              var d := states[start].live[turn];
              states[end].flights[n] ==
              Walked(states[start].live, turn + 1,
                     if StillRegistered(labels, states, start, i, d) then invoked + [d] else invoked)
  {
    ExecutionGood(labels, states, i);
    assert states[end] == Step(states[i], Call(n));
    if turn < |states[start].live| {
      CallInvokes(states[i], n);
      TurnTaken(labels, states, start, i, states[start].live[turn]);
    }
  }

  lemma DeliveryOther(labels: seq<Label>, states: seq<State>, i: nat, n: nat)
    requires Execution(labels, states) && i < |labels| && labels[i] != Call(n) && n < |states[i].flights|
    ensures n < |states[i + 1].flights| && states[i + 1].flights[n] == states[i].flights[n]
  {
    assert states[i + 1] == Step(states[i], labels[i]);
    StepKeeps(states[i], labels[i]);
  }

  lemma StartsFlight(labels: seq<Label>, states: seq<State>, start: nat, n: nat)
    requires Execution(labels, states) && start < |labels| && labels[start] == Start && n == |states[start].flights|
    ensures n < |states[start + 1].flights|
    ensures states[start + 1].flights[n] == Flight(if states[start].enabled then states[start].live else [], 0, [])
  {
    assert states[start + 1] == Step(states[start], Start);
  }

  lemma ExpectedNext(labels: seq<Label>, states: seq<State>, start: nat, i: nat, end: nat, n: nat)
    requires start < i < |labels| < |states| && end == i + 1
    ensures var snapshot, turn, before := states[start].live, Calls(labels, start, i, n), Expected(labels, states, start, i, n);
            && Calls(labels, start, end, n) == (if labels[i] == Call(n) then turn + 1 else turn)
            && Expected(labels, states, start, end, n) ==
                 if labels[i] == Call(n) && turn < |snapshot| && StillRegistered(labels, states, start, i, snapshot[turn])
                 then before + [snapshot[turn]] else before
  {
  }

  /** Delivery: in every run, whatever is added, removed and notified in between, a notify that
      starts on an enabled event walks over the delegates that were live at its start, in order,
      and calls exactly those that were registered with a receiver and not removed before their
      turn. */
  lemma {:induction false} Delivery(labels: seq<Label>, states: seq<State>, start: nat, end: nat, n: nat)
    requires Execution(labels, states) && start < end <= |labels|
    requires labels[start] == Start && n == |states[start].flights| && !SwitchedOff(labels, start)
    ensures n < |states[end].flights|
    ensures states[end].flights[n] ==
            Walked(states[start].live, Calls(labels, start, end, n), Expected(labels, states, start, end, n))
    decreases end
  {
    if end == start + 1 {
      EnabledByLabels(labels, states, start);
      StartsFlight(labels, states, start, n);
    } else {
      var i := end - 1;
      Delivery(labels, states, start, i, n);
      ExpectedNext(labels, states, start, i, end, n);
      if labels[i] == Call(n) {
        DeliveryCall(labels, states, start, i, end, n, Calls(labels, start, i, n), Expected(labels, states, start, i, n));
      } else {
        DeliveryOther(labels, states, i, n);
      }
    }
  }

  /** A notify that starts on a disabled event calls nothing. */
  lemma {:induction false} DisabledDeliversNothing(labels: seq<Label>, states: seq<State>, start: nat, end: nat, n: nat)
    requires Execution(labels, states) && start < end <= |labels|
    requires labels[start] == Start && n == |states[start].flights| && SwitchedOff(labels, start)
    ensures n < |states[end].flights| && states[end].flights[n] == Flight([], 0, [])
    decreases end
  {
    if end == start + 1 {
      EnabledByLabels(labels, states, start);
      StartsFlight(labels, states, start, n);
    } else {
      var i := end - 1;
      DisabledDeliversNothing(labels, states, start, i, n);
      if labels[i] == Call(n) {
        assert Step(states[i], Call(n)) == states[i];
      } else {
        DeliveryOther(labels, states, i, n);
      }
    }
  }

  /** The delegates whose turn has been when a walk has taken so many steps. */
  function Passed(snapshot: seq<nat>, turn: nat): seq<nat> {
    snapshot[..if turn < |snapshot| then turn else |snapshot|]
  }

  lemma PassedNext(snapshot: seq<nat>, turn: nat)
    ensures Passed(snapshot, turn + 1) == Passed(snapshot, turn) + if turn < |snapshot| then [snapshot[turn]] else []
  {
  }

  /** Only delegates of the snapshot are called, each in its turn. */
  lemma {:induction false} ExpectedPassed(labels: seq<Label>, states: seq<State>, start: nat, end: nat, n: nat)
    requires start < end <= |labels| < |states|
    ensures forall d :: d in Expected(labels, states, start, end, n) ==>
              d in Passed(states[start].live, Calls(labels, start, end, n))
    decreases end
  {
    if end != start + 1 {
      var i := end - 1;
      ExpectedPassed(labels, states, start, i, n);
      ExpectedNext(labels, states, start, i, end, n);
      PassedNext(states[start].live, Calls(labels, start, i, n));
    }
  }

  lemma PassedBefore(snapshot: seq<nat>, bound: nat, before: seq<nat>, turn: nat)
    requires Ascending(snapshot, bound) && Ascending(before, bound) && turn < |snapshot|
    requires forall d :: d in before ==> d in Passed(snapshot, turn)
    ensures Ascending(before + [snapshot[turn]], bound)
  {
    forall i | 0 <= i < |before| ensures before[i] < snapshot[turn] {
      assert before[i] in before;
      var j :| 0 <= j < turn && Passed(snapshot, turn)[j] == before[i];
      assert snapshot[j] == before[i];
    }
  }

  /** The delegate is called in step i: it is its turn in the walk, and it has not been removed since the
      walk started. */
  ghost predicate CalledIn(labels: seq<Label>, states: seq<State>, start: nat, i: nat, n: nat, d: nat)
    requires start < i < |labels| < |states|
  {
    var snapshot, turn := states[start].live, Calls(labels, start, i, n);
    && labels[i] == Call(n) && turn < |snapshot| && snapshot[turn] == d
    && StillRegistered(labels, states, start, i, d)
  }

  lemma {:induction false} ExpectedIff(labels: seq<Label>, states: seq<State>, start: nat, end: nat, n: nat, d: nat)
    requires start < end <= |labels| < |states|
    ensures d in Expected(labels, states, start, end, n) <==>
            exists i: nat :: start < i < end && CalledIn(labels, states, start, i, n, d)
    decreases end
  {
    if end != start + 1 {
      var i := end - 1;
      ExpectedIff(labels, states, start, i, n, d);
      ExpectedNext(labels, states, start, i, end, n);
      assert d in Expected(labels, states, start, end, n) <==>
             d in Expected(labels, states, start, i, n) || CalledIn(labels, states, start, i, n, d);
      if exists j: nat :: start < j < end && CalledIn(labels, states, start, j, n, d) {
        var j: nat :| start < j < end && CalledIn(labels, states, start, j, n, d);
        assert j == i || j < i;
      }
    }
  }

  /** Delegates are called in the order of their registration, none twice, and none that was
      registered after the notify started. */
  lemma {:induction false} ExpectedAscends(labels: seq<Label>, states: seq<State>, start: nat, end: nat, n: nat)
    requires Execution(labels, states) && start < end <= |labels|
    ensures Ascending(Expected(labels, states, start, end, n), |states[start].heap|)
    ensures forall d :: d in Expected(labels, states, start, end, n) ==> d in states[start].live
    decreases end
  {
    ExecutionGood(labels, states, start);
    ExpectedPassed(labels, states, start, end, n);
    if end != start + 1 {
      var i := end - 1;
      var snapshot, turn, before := states[start].live, Calls(labels, start, i, n), Expected(labels, states, start, i, n);
      ExpectedAscends(labels, states, start, i, n);
      ExpectedPassed(labels, states, start, i, n);
      ExpectedNext(labels, states, start, i, end, n);
      if turn < |snapshot| {
        PassedBefore(snapshot, |states[start].heap|, before, turn);
      }
    }
  }

  /** The states that a notification walking over two delegates and one clear of them lead through. */
  function ClearRace(t: Target, u: Target): seq<State> {
    var t', u' := t.(receiver := None), u.(receiver := None);
    var flight := Flight([0, 1], 0, []);
    [ INITIAL,
      State([t], [t], [0], true, None, []),
      State([t, u], [t, u], [0, 1], true, None, []),
      State([t, u], [t, u], [0, 1], true, None, [flight]),
      State([t, u], [t, u], [0, 1], true, Some(0), [flight]),
      State([t', u], [t, u], [0, 1], true, Some(1), [flight]),
      State([t', u], [t, u], [0, 1], true, Some(1), [Flight([0, 1], 1, [])]),
      State([t', u], [t, u], [0, 1], true, Some(1), [Flight([0, 1], 2, [1])]),
      State([t', u'], [t, u], [0, 1], true, Some(2), [Flight([0, 1], 2, [1])]),
      State([t', u'], [t, u], [], true, None, [Flight([0, 1], 2, [1])])
    ]
  }

  lemma ClearRaceBegins(t: Target, u: Target)
    ensures var states := ClearRace(t, u);
            && Step(states[0], Add(t)) == states[1] && Step(states[1], Add(u)) == states[2]
            && Step(states[2], Start) == states[3] && Step(states[3], ClearBegin) == states[4]
            && Step(states[4], ClearNext) == states[5]
  {
    assert [t] + [u] == [t, u] && [0] + [1] == [0, 1];
  }

  lemma ClearRaceEnds(t: Target, u: Target)
    requires u.receiver.Some?
    ensures var states := ClearRace(t, u);
            && Step(states[5], Call(0)) == states[6] && Step(states[6], Call(0)) == states[7]
            && Step(states[7], ClearNext) == states[8] && Step(states[8], ClearEnd) == states[9]
  {
    var none: seq<nat> := [];
    assert none + [1] == [1];
  }

  /** A clear is not atomic for notifications: in this run, with two delegates and nothing but one clear,
      the first is disabled before its turn and the second is called although the clear has begun. */
  lemma {:induction false} NotifyDuringClear(t: Target, u: Target)
    requires t.receiver.Some? && u.receiver.Some?
    ensures var states := ClearRace(t, u);
            && Execution([Add(t), Add(u), Start, ClearBegin, ClearNext, Call(0), Call(0), ClearNext, ClearEnd], states)
            && states[9].flights[0].invoked == [1]
  {
    ClearRaceBegins(t, u);
    ClearRaceEnds(t, u);
  }
}
