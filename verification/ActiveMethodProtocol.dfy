/** Active methods (Poco/ActiveMethod.h, ActiveStarter.h, ActiveRunnable.h, ActiveResult.h) as a
    protocol: the thread that calls, the worker thread that runs the method, and the owners of the
    returned results, interleaved step by step. Every step makes at most one change to a reference
    count. The worker may have released the runnable before the starter duplicates it. */
module ActiveMethodProtocol {
  import opened Outcomes

  /** Where the caller of operator () stands; each name says what has just been done.
      Created: the result holder was made for the local `result`. Built: the runnable was made, with
      its own copy of the result, for the local pRunnable. Passed: pRunnable was copied into the
      parameter of start. Started: the thread was started. Duplicated: the starter duplicated the
      runnable. ParameterGone: the parameter was destroyed. Returned: the result was copied to the
      caller. RunnableGone: pRunnable was destroyed. Done: the local result was destroyed. */
  datatype Caller = Created | Built | Passed | Started | Duplicated | ParameterGone | Returned | RunnableGone | Done

  /** Where ActiveRunnable::run stands. Guarded: the adopting guard exists. Ran: data or error is
      set. Notified: the event is set. Finished: the guard was destroyed. */
  datatype Worker = Idle | Ready | Guarded | Ran | Notified | Finished

  /** What the method does in the worker: it returns a value or throws. */
  datatype Outcome = Yields(value: nat) | Throws(exception: nat)

  /** One call: its two threads, the reference counts of its runnable and its holder, how often each
      was freed, and the holder's contents. Dying: the runnable's count reached zero and its
      destructor has yet to run. */
  datatype Call = Call(caller: Caller, worker: Worker,
                       runnableCount: int, dying: bool, runnableFrees: nat,
                       holderCount: int, holderFrees: nat,
                       data: Option<nat>, error: Option<nat>, event: bool)

  /** handles: the ActiveResult objects outside operator () and the runnables, and whose holder each
      one points to. */
  datatype State = State(calls: seq<Call>, handles: map<nat, nat>)

  datatype Label =
    | Invoke
    | CallerStep(c: nat, h: nat)
    | WorkerStep(c: nat, outcome: Outcome)
    | Destruct(c: nat)
    | Copy(h: nat, to: nat)
    | Swap(h: nat, g: nat)
    | Destroy(h: nat)
    | Wait(h: nat)

  const INITIAL := State([], map[])

  predicate Enabled(s: State, l: Label) {
    match l
    case Invoke => true
    case CallerStep(c, h) => c < |s.calls| && s.calls[c].caller != Done && h !in s.handles
    case WorkerStep(c, _) => c < |s.calls| && s.calls[c].worker !in {Idle, Finished}
    case Destruct(c) => c < |s.calls| && s.calls[c].dying
    case Copy(h, g) => h in s.handles && s.handles[h] < |s.calls| && g !in s.handles
    case Swap(h, g) => h in s.handles && g in s.handles
    case Destroy(h) => h in s.handles && s.handles[h] < |s.calls|
    case Wait(h) => h in s.handles && s.handles[h] < |s.calls| && s.calls[s.handles[h]].event
  }

  function ReleaseRunnable(c: Call): Call {
    c.(runnableCount := c.runnableCount - 1, dying := c.runnableCount == 1)
  }

  function ReleaseHolder(c: Call): Call {
    c.(holderCount := c.holderCount - 1, holderFrees := c.holderFrees + if c.holderCount == 1 then 1 else 0)
  }

  function AdvanceCaller(c: Call): Call
    requires c.caller != Done
  {
    match c.caller
    case Created => c.(caller := Built, runnableCount := 1, holderCount := c.holderCount + 1)
    case Built => c.(caller := Passed, runnableCount := c.runnableCount + 1)
    case Passed => c.(caller := Started, worker := Ready)
    case Started => c.(caller := Duplicated, runnableCount := c.runnableCount + 1)
    case Duplicated => ReleaseRunnable(c.(caller := ParameterGone))
    case ParameterGone => c.(caller := Returned, holderCount := c.holderCount + 1)
    case Returned => ReleaseRunnable(c.(caller := RunnableGone))
    case RunnableGone => ReleaseHolder(c.(caller := Done))
  }

  function AdvanceWorker(c: Call, outcome: Outcome): Call
    requires c.worker !in {Idle, Finished}
  {
    match c.worker
    case Ready => c.(worker := Guarded)
    case Guarded =>
      (match outcome
       case Yields(v) => c.(worker := Ran, data := Some(v))
       case Throws(e) => c.(worker := Ran, error := Some(e)))
    case Ran => c.(worker := Notified, event := true)
    case Notified => ReleaseRunnable(c.(worker := Finished))
  }

  /** The destructor of the runnable, which destroys its copy of the result. */
  function RunDestructor(c: Call): Call {
    ReleaseHolder(c.(dying := false, runnableFrees := c.runnableFrees + 1))
  }

  function Step(s: State, l: Label): State
    requires Enabled(s, l)
  {
    match l
    case Invoke => s.(calls := s.calls + [Call(Created, Idle, 0, false, 0, 1, 0, None, None, false)])
    case CallerStep(c, h) =>
      State(s.calls[c := AdvanceCaller(s.calls[c])],
            if s.calls[c].caller == ParameterGone then s.handles[h := c] else s.handles)
    case WorkerStep(c, outcome) => s.(calls := s.calls[c := AdvanceWorker(s.calls[c], outcome)])
    case Destruct(c) => s.(calls := s.calls[c := RunDestructor(s.calls[c])])
    case Copy(h, g) =>
      var c := s.handles[h];
      State(s.calls[c := s.calls[c].(holderCount := s.calls[c].holderCount + 1)], s.handles[g := c])
    case Swap(h, g) => s.(handles := s.handles[h := s.handles[g]][g := s.handles[h]])
    case Destroy(h) =>
      var c := s.handles[h];
      State(s.calls[c := ReleaseHolder(s.calls[c])], s.handles - {h})
    case Wait(h) => s
  }

  // ---------------------------------------------------------------- who owns what

  /** The references to the runnable that the caller's thread has taken so far and not given back,
      counting the one it leaves to the worker. */
  function CallerShare(p: Caller): int {
    match p
    case Created => 0
    case Built => 1
    case Passed => 2
    case Started => 2
    case Duplicated => 3
    case ParameterGone => 2
    case Returned => 2
    case RunnableGone => 1
    case Done => 1
  }

  /** The runnable exists: made, and its destructor has not run. */
  predicate RunnableExists(c: Call) {
    c.caller != Created && c.runnableFrees == 0
  }

  ghost predicate CallOk(c: Call, owners: nat) {
    && (c.worker == Idle <==> c.caller in {Created, Built, Passed})
    && c.runnableCount == CallerShare(c.caller) - (if c.worker == Finished then 1 else 0)
    && 0 <= c.runnableCount
    && c.runnableFrees <= 1 && c.holderFrees <= 1
    && (c.caller == Created ==> !c.dying && c.runnableFrees == 0)
    && (c.caller != Created ==> (c.runnableCount == 0 <==> c.dying || c.runnableFrees == 1))
    && !(c.dying && c.runnableFrees == 1)
    && c.holderCount == owners + (if c.caller == Done then 0 else 1) + (if RunnableExists(c) then 1 else 0)
    && (c.holderFrees == 1 <==> c.holderCount == 0)
    && (c.event <==> c.worker in {Notified, Finished})
    && (if c.worker in {Ran, Notified, Finished} then c.data.Some? != c.error.Some? else c.data.None? && c.error.None?)
  }

  ghost function Owners(handles: map<nat, nat>, c: nat): set<nat> {
    set h | h in handles && handles[h] == c
  }

  ghost predicate Good(s: State) {
    && (forall h :: h in s.handles ==> s.handles[h] < |s.calls| && s.calls[s.handles[h]].caller !in {Created, Built})
    && (forall c :: 0 <= c < |s.calls| ==> CallOk(s.calls[c], |Owners(s.handles, c)|))
  }

  lemma CallerOk(c: Call, owners: nat)
    requires CallOk(c, owners) && c.caller != Done
    ensures CallOk(AdvanceCaller(c), if c.caller == ParameterGone then owners + 1 else owners)
  {
  }

  lemma WorkerOk(c: Call, owners: nat, outcome: Outcome)
    requires CallOk(c, owners) && c.worker !in {Idle, Finished}
    ensures CallOk(AdvanceWorker(c, outcome), owners)
  {
  }

  lemma DestructOk(c: Call, owners: nat)
    requires CallOk(c, owners) && c.dying
    ensures CallOk(RunDestructor(c), owners)
  {
  }

  lemma AddOwnerOf(handles: map<nat, nat>, h: nat, c: nat, d: nat)
    requires h !in handles
    ensures |Owners(handles[h := c], d)| == |Owners(handles, d)| + if d == c then 1 else 0
  {
    if d == c {
      assert Owners(handles[h := c], d) == Owners(handles, d) + {h};
    } else {
      assert Owners(handles[h := c], d) == Owners(handles, d);
    }
  }

  lemma AddOwner(handles: map<nat, nat>, h: nat, c: nat)
    requires h !in handles
    ensures forall d: nat :: |Owners(handles[h := c], d)| == |Owners(handles, d)| + if d == c then 1 else 0
  {
    forall d: nat ensures |Owners(handles[h := c], d)| == |Owners(handles, d)| + if d == c then 1 else 0 {
      AddOwnerOf(handles, h, c, d);
    }
  }

  lemma DropOwner(handles: map<nat, nat>, h: nat)
    requires h in handles
    ensures forall d: nat :: |Owners(handles, d)| == |Owners(handles - {h}, d)| + if d == handles[h] then 1 else 0
  {
    AddOwner(handles - {h}, h, handles[h]);
    assert (handles - {h})[h := handles[h]] == handles;
  }

  lemma SwapOwners(handles: map<nat, nat>, h: nat, g: nat)
    requires h in handles && g in handles
    ensures forall d: nat :: |Owners(handles[h := handles[g]][g := handles[h]], d)| == |Owners(handles, d)|
  {
    if h != g {
      var rest: map<nat, nat> := handles - {h} - {g};
      DropOwner(handles, h);
      DropOwner(handles - {h}, g);
      AddOwner(rest, h, handles[g]);
      AddOwner(rest[h := handles[g]], g, handles[h]);
      assert rest[h := handles[g]][g := handles[h]] == handles[h := handles[g]][g := handles[h]];
    } else {
      assert handles[h := handles[g]][g := handles[h]] == handles;
    }
  }

  lemma CountsOk(c: Call, owners: nat)
    requires CallOk(c, owners)
    ensures CallOk(c.(holderCount := c.holderCount + 1), owners + 1) || c.holderCount == 0
    ensures 0 < owners ==> CallOk(ReleaseHolder(c), owners - 1)
  {
  }

  /** A step that changes one call and the owners of its holder only. */
  lemma ChangeGood(s: State, c: nat, call: Call, handles: map<nat, nat>)
    requires Good(s) && c < |s.calls| && CallOk(call, |Owners(handles, c)|)
    requires forall d: nat :: d != c ==> |Owners(handles, d)| == |Owners(s.handles, d)|
    requires forall h :: h in handles ==> handles[h] < |s.calls| && (handles[h] == c || (h in s.handles && s.handles[h] == handles[h]))
    requires call.caller in {Created, Built} ==> forall h :: h in handles ==> handles[h] != c
    ensures Good(State(s.calls[c := call], handles))
  {
  }

  lemma NoOwnersYet(s: State, c: nat)
    requires Good(s) && c < |s.calls| && s.calls[c].caller in {Created, Built}
    ensures forall h :: h in s.handles ==> s.handles[h] != c
  {
  }

  lemma CallerStepGood(s: State, c: nat, h: nat)
    requires Good(s) && Enabled(s, CallerStep(c, h))
    ensures Good(Step(s, CallerStep(c, h)))
  {
    CallerOk(s.calls[c], |Owners(s.handles, c)|);
    if s.calls[c].caller == ParameterGone {
      AddOwner(s.handles, h, c);
      ChangeGood(s, c, AdvanceCaller(s.calls[c]), s.handles[h := c]);
    } else {
      if s.calls[c].caller == Created {
        NoOwnersYet(s, c);
      }
      ChangeGood(s, c, AdvanceCaller(s.calls[c]), s.handles);
    }
  }

  lemma CopyGood(s: State, h: nat, g: nat)
    requires Good(s) && h in s.handles && g !in s.handles
    ensures Good(Step(s, Copy(h, g)))
  {
    var c := s.handles[h];
    DropOwner(s.handles, h);
    CountsOk(s.calls[c], |Owners(s.handles, c)|);
    AddOwner(s.handles, g, c);
    var call := s.calls[c].(holderCount := s.calls[c].holderCount + 1);
    ChangeGood(s, c, call, s.handles[g := c]);
    assert Step(s, Copy(h, g)) == State(s.calls[c := call], s.handles[g := c]);
  }

  lemma DestroyGood(s: State, h: nat)
    requires Good(s) && h in s.handles
    ensures Good(Step(s, Destroy(h)))
  {
    var c := s.handles[h];
    DropOwner(s.handles, h);
    CountsOk(s.calls[c], |Owners(s.handles, c)|);
    ChangeGood(s, c, ReleaseHolder(s.calls[c]), s.handles - {h});
    assert Step(s, Destroy(h)) == State(s.calls[c := ReleaseHolder(s.calls[c])], s.handles - {h});
  }

  lemma InvokeGood(s: State)
    requires Good(s)
    ensures Good(Step(s, Invoke))
  {
    assert Owners(s.handles, |s.calls|) == {};
  }

  lemma WorkerStepGood(s: State, c: nat, outcome: Outcome)
    requires Good(s) && Enabled(s, WorkerStep(c, outcome))
    ensures Good(Step(s, WorkerStep(c, outcome)))
  {
    WorkerOk(s.calls[c], |Owners(s.handles, c)|, outcome);
    ChangeGood(s, c, AdvanceWorker(s.calls[c], outcome), s.handles);
  }

  lemma DestructGood(s: State, c: nat)
    requires Good(s) && Enabled(s, Destruct(c))
    ensures Good(Step(s, Destruct(c)))
  {
    DestructOk(s.calls[c], |Owners(s.handles, c)|);
    ChangeGood(s, c, RunDestructor(s.calls[c]), s.handles);
  }

  lemma SwapGood(s: State, h: nat, g: nat)
    requires Good(s) && h in s.handles && g in s.handles
    ensures Good(Step(s, Swap(h, g)))
  {
    SwapOwners(s.handles, h, g);
  }

  lemma {:induction false} StepGood(s: State, l: Label)
    requires Good(s) && Enabled(s, l)
    ensures Good(Step(s, l))
  {
    match l
    case Invoke =>
      InvokeGood(s);
    case CallerStep(c, h) =>
      CallerStepGood(s, c, h);
    case WorkerStep(c, outcome) =>
      WorkerStepGood(s, c, outcome);
    case Destruct(c) =>
      DestructGood(s, c);
    case Copy(h, g) =>
      CopyGood(s, h, g);
    case Swap(h, g) =>
      SwapGood(s, h, g);
    case Destroy(h) =>
      DestroyGood(s, h);
    case Wait(h) =>
  }

  /** A run: any number of calls and results, interleaved in any way. */
  ghost predicate Execution(labels: seq<Label>, states: seq<State>) {
    && |states| == |labels| + 1 && states[0] == INITIAL
    && forall i :: 0 <= i < |labels| ==> Enabled(states[i], labels[i]) && states[i + 1] == Step(states[i], labels[i])
  }

  lemma {:induction false} ExecutionGood(labels: seq<Label>, states: seq<State>, i: nat)
    requires Execution(labels, states) && i < |states|
    ensures Good(states[i])
  {
    if i != 0 {
      ExecutionGood(labels, states, i - 1);
      StepGood(states[i - 1], labels[i - 1]);
    }
  }

  // ---------------------------------------------------------------- what is promised

  datatype Object = Runnable(c: nat) | Holder(c: nat)

  /** The objects a step reads, writes or counts, other than one it makes itself. */
  function Touches(s: State, l: Label): set<Object>
    requires Enabled(s, l)
  {
    match l
    case Invoke => {}
    case CallerStep(c, _) =>
      (match s.calls[c].caller
       case Created => {Holder(c)}
       case ParameterGone => {Holder(c)}
       case RunnableGone => {Holder(c)}
       case _ => {Runnable(c)})
    case WorkerStep(c, _) => {Runnable(c), Holder(c)}
    case Destruct(c) => {Holder(c)}
    case Copy(h, _) => {Holder(s.handles[h])}
    case Swap(h, g) => {}
    case Destroy(h) => {Holder(s.handles[h])}
    case Wait(h) => {Holder(s.handles[h])}
  }

  predicate Alive(s: State, o: Object) {
    o.c < |s.calls| &&
    match o
    case Runnable(c) => s.calls[c].runnableCount > 0 && !s.calls[c].dying && s.calls[c].runnableFrees == 0
    case Holder(c) => s.calls[c].holderCount > 0 && s.calls[c].holderFrees == 0
  }

  /** No use after free: in every run, every object that a step uses is alive when it does. */
  lemma {:induction false} NoUseAfterFree(labels: seq<Label>, states: seq<State>, i: nat, o: Object)
    requires Execution(labels, states) && i < |labels| && o in Touches(states[i], labels[i])
    ensures Alive(states[i], o)
  {
    ExecutionGood(labels, states, i);
    var s := states[i];
    match labels[i]
    case Copy(h, _) => DropOwner(s.handles, h);
    case Destroy(h) => DropOwner(s.handles, h);
    case Wait(h) => DropOwner(s.handles, h);
    case _ =>
  }

  /** The holder of every result object is alive. */
  lemma {:induction false} ResultsKeepHolders(labels: seq<Label>, states: seq<State>, i: nat, h: nat)
    requires Execution(labels, states) && i < |states| && h in states[i].handles
    ensures Alive(states[i], Holder(states[i].handles[h]))
  {
    ExecutionGood(labels, states, i);
    DropOwner(states[i].handles, h);
  }

  /** Nothing is freed twice; and once both threads are through and the last destructor has run, the
      runnable has been freed exactly once, and so has the holder if no result object is left. */
  lemma {:induction false} FreedExactlyOnce(labels: seq<Label>, states: seq<State>, i: nat, c: nat)
    requires Execution(labels, states) && i < |states| && c < |states[i].calls|
    ensures var call := states[i].calls[c];
            && call.runnableFrees <= 1 && call.holderFrees <= 1
            && (call.caller == Done && call.worker == Finished && !call.dying ==>
                  call.runnableFrees == 1 && (call.holderFrees == 1 <==> Owners(states[i].handles, c) == {}))
  {
    ExecutionGood(labels, states, i);
  }

  // ---------------------------------------------------------------- what a caller gets to see

  /** Step i runs the method of call c. */
  ghost predicate Runs(labels: seq<Label>, states: seq<State>, i: nat, c: nat)
    requires i < |labels| && i < |states|
  {
    labels[i].WorkerStep? && labels[i].c == c && c < |states[i].calls| && states[i].calls[c].worker == Guarded
  }

  /** The holder has the value or the exception, and not the other. */
  predicate Shows(call: Call, outcome: Outcome) {
    match outcome
    case Yields(v) => call.data == Some(v) && call.error == None
    case Throws(e) => call.data == None && call.error == Some(e)
  }

  predicate HasRun(call: Call) {
    call.worker in {Ran, Notified, Finished}
  }

  lemma StepKeepsOutcome(s: State, l: Label, c: nat)
    requires Good(s) && Enabled(s, l) && c < |s.calls| && HasRun(s.calls[c])
    ensures c < |Step(s, l).calls|
    ensures var a, b := s.calls[c], Step(s, l).calls[c];
            HasRun(b) && (b.data, b.error) == (a.data, a.error) && (a.event ==> b.event)
  {
  }

  lemma RunShows(s: State, l: Label, c: nat)
    requires Good(s) && Enabled(s, l) && l.WorkerStep? && l.c == c && s.calls[c].worker == Guarded
    ensures c < |Step(s, l).calls| && HasRun(Step(s, l).calls[c]) && Shows(Step(s, l).calls[c], l.outcome)
  {
    assert CallOk(s.calls[c], |Owners(s.handles, c)|);
  }

  lemma OutcomeFirst(labels: seq<Label>, states: seq<State>, i: nat, end: nat, c: nat)
    requires Execution(labels, states) && i < |labels| && end == i + 1 && Runs(labels, states, i, c)
    ensures c < |states[end].calls| && HasRun(states[end].calls[c]) && Shows(states[end].calls[c], labels[i].outcome)
  {
    ExecutionGood(labels, states, i);
    RunShows(states[i], labels[i], c);
  }

  lemma OutcomeNext(labels: seq<Label>, states: seq<State>, i: nat, end: nat, c: nat)
    requires Execution(labels, states) && i < |labels| && end == i + 1
    requires c < |states[i].calls| && HasRun(states[i].calls[c])
    ensures c < |states[end].calls| && HasRun(states[end].calls[c])
    ensures (states[end].calls[c].data, states[end].calls[c].error) == (states[i].calls[c].data, states[i].calls[c].error)
  {
    ExecutionGood(labels, states, i);
    StepKeepsOutcome(states[i], labels[i], c);
  }

  /** What the method returned or threw is what its holder shows ever after. */
  lemma {:induction false} OutcomeIsFinal(labels: seq<Label>, states: seq<State>, i: nat, j: nat, c: nat)
    requires Execution(labels, states) && i < j < |states| && i < |labels| && Runs(labels, states, i, c)
    ensures c < |states[j].calls| && HasRun(states[j].calls[c]) && Shows(states[j].calls[c], labels[i].outcome)
    decreases j
  {
    var k := j - 1;
    if i == k {
      OutcomeFirst(labels, states, i, j, c);
    } else {
      OutcomeIsFinal(labels, states, i, k, c);
      OutcomeNext(labels, states, k, j, c);
    }
  }

  lemma StepRuns(s: State, l: Label, c: nat)
    requires Good(s) && Enabled(s, l) && c < |Step(s, l).calls| && HasRun(Step(s, l).calls[c])
    ensures c < |s.calls| && (HasRun(s.calls[c]) || (l.WorkerStep? && l.c == c && s.calls[c].worker == Guarded))
  {
  }

  lemma {:induction false} RanBefore(labels: seq<Label>, states: seq<State>, j: nat, c: nat) returns (i: nat)
    requires Execution(labels, states) && j < |states| && c < |states[j].calls| && HasRun(states[j].calls[c])
    ensures i < j && Runs(labels, states, i, c)
  {
    i := j - 1;
    ExecutionGood(labels, states, i);
    StepRuns(states[i], labels[i], c);
    if HasRun(states[i].calls[c]) {
      i := RanBefore(labels, states, i, c);
    }
  }

  /** When a wait returns, the method has run, and the holder shows what it returned or threw. */
  lemma {:induction false} WaitSeesOutcome(labels: seq<Label>, states: seq<State>, j: nat, h: nat) returns (i: nat)
    requires Execution(labels, states) && j < |labels| && labels[j] == Wait(h)
    ensures i < j && Runs(labels, states, i, states[j].handles[h])
    ensures Shows(states[j].calls[states[j].handles[h]], labels[i].outcome)
  {
    ExecutionGood(labels, states, j);
    i := RanBefore(labels, states, j, states[j].handles[h]);
    OutcomeIsFinal(labels, states, i, j, states[j].handles[h]);
  }

  /** Once the worker has notified, every wait for the call returns. */
  lemma {:induction false} WaitReturns(labels: seq<Label>, states: seq<State>, i: nat, h: nat)
    requires Execution(labels, states) && i < |states| && h in states[i].handles
    ensures states[i].handles[h] < |states[i].calls|
    ensures Enabled(states[i], Wait(h)) <==> states[i].calls[states[i].handles[h]].worker in {Notified, Finished}
  {
    ExecutionGood(labels, states, i);
    assert CallOk(states[i].calls[states[i].handles[h]], |Owners(states[i].handles, states[i].handles[h])|);
  }

  /** Which call's result each result object is after a step. */
  lemma {:induction false} StepHandles(s: State, l: Label, g: nat)
    requires Enabled(s, l)
    ensures var before, after := s.handles, Step(s, l).handles;
            match l
            case CallerStep(c, h) =>
              if s.calls[c].caller == ParameterGone && g == h then g in after && after[g] == c
              else (g in after <==> g in before) && (g in before ==> after[g] == before[g])
            case Copy(h, to) =>
              if g == to then g in after && after[g] == before[h]
              else (g in after <==> g in before) && (g in before ==> after[g] == before[g])
            case Swap(h, k) =>
              && (g in after <==> g in before)
              && (g in before ==> after[g] == if g == h then before[k] else if g == k then before[h] else before[g])
            case Destroy(h) => (g in after <==> g in before && g != h) && (g in after ==> after[g] == before[g])
            case _ => (g in after <==> g in before) && (g in before ==> after[g] == before[g])
  {
  }

  /** operator =, which copies into a temporary, swaps and destroys the temporary: the result on the left
      becomes one of the call on the right, and all others stay what they are. */
  lemma {:induction false} Assignment(s: State, a: nat, b: nat, tmp: nat)
    requires Good(s) && a in s.handles && b in s.handles && tmp !in s.handles
    ensures Enabled(s, Copy(b, tmp))
    ensures var s1 := Step(s, Copy(b, tmp)); Enabled(s1, Swap(a, tmp))
    ensures var s1 := Step(s, Copy(b, tmp)); var s2 := Step(s1, Swap(a, tmp)); Enabled(s2, Destroy(tmp))
    ensures var s1 := Step(s, Copy(b, tmp)); var s2 := Step(s1, Swap(a, tmp));
            Good(Step(s2, Destroy(tmp))) && Step(s2, Destroy(tmp)).handles == s.handles[a := s.handles[b]]
  {
    var s1 := Step(s, Copy(b, tmp));
    StepGood(s, Copy(b, tmp));
    var s2 := Step(s1, Swap(a, tmp));
    StepGood(s1, Swap(a, tmp));
    StepGood(s2, Destroy(tmp));
    AssignedHandles(s.handles, a, b, tmp);
  }

  lemma AssignedHandles(handles: map<nat, nat>, a: nat, b: nat, tmp: nat)
    requires a in handles && b in handles && tmp !in handles
    ensures var copied := handles[tmp := handles[b]];
            copied[a := copied[tmp]][tmp := copied[a]] - {tmp} == handles[a := handles[b]]
  {
  }

  /** One call whose worker is through before the starter duplicates. */
  function FastWorker(v: nat): seq<State> {
    [ INITIAL,
      State([Call(Created, Idle, 0, false, 0, 1, 0, None, None, false)], map[]),
      State([Call(Built, Idle, 1, false, 0, 2, 0, None, None, false)], map[]),
      State([Call(Passed, Idle, 2, false, 0, 2, 0, None, None, false)], map[]),
      State([Call(Started, Ready, 2, false, 0, 2, 0, None, None, false)], map[]),
      State([Call(Started, Guarded, 2, false, 0, 2, 0, None, None, false)], map[]),
      State([Call(Started, Ran, 2, false, 0, 2, 0, Some(v), None, false)], map[]),
      State([Call(Started, Notified, 2, false, 0, 2, 0, Some(v), None, true)], map[]),
      State([Call(Started, Finished, 1, false, 0, 2, 0, Some(v), None, true)], map[])
    ]
  }

  lemma OneCallerStep(c: Call)
    requires c.caller !in {Done, ParameterGone}
    ensures var s := State([c], map[]);
            Enabled(s, CallerStep(0, 0)) && Step(s, CallerStep(0, 0)) == State([AdvanceCaller(c)], map[])
  {
  }

  lemma OneWorkerStep(c: Call, outcome: Outcome)
    requires c.worker !in {Idle, Finished}
    ensures var s := State([c], map[]);
            Enabled(s, WorkerStep(0, outcome)) && Step(s, WorkerStep(0, outcome)) == State([AdvanceWorker(c, outcome)], map[])
  {
  }

  lemma FastWorkerStarts(v: nat)
    ensures var s := FastWorker(v);
            && Step(s[0], Invoke) == s[1]
            && Enabled(s[1], CallerStep(0, 0)) && Step(s[1], CallerStep(0, 0)) == s[2]
            && Enabled(s[2], CallerStep(0, 0)) && Step(s[2], CallerStep(0, 0)) == s[3]
            && Enabled(s[3], CallerStep(0, 0)) && Step(s[3], CallerStep(0, 0)) == s[4]
  {
    var none: seq<Call> := [];
    assert none + [Call(Created, Idle, 0, false, 0, 1, 0, None, None, false)] == FastWorker(v)[1].calls;
    OneCallerStep(Call(Created, Idle, 0, false, 0, 1, 0, None, None, false));
    OneCallerStep(Call(Built, Idle, 1, false, 0, 2, 0, None, None, false));
    OneCallerStep(Call(Passed, Idle, 2, false, 0, 2, 0, None, None, false));
  }

  lemma FastWorkerFinishes(v: nat)
    ensures var s := FastWorker(v);
            && Enabled(s[4], WorkerStep(0, Yields(v))) && Step(s[4], WorkerStep(0, Yields(v))) == s[5]
            && Enabled(s[5], WorkerStep(0, Yields(v))) && Step(s[5], WorkerStep(0, Yields(v))) == s[6]
            && Enabled(s[6], WorkerStep(0, Yields(v))) && Step(s[6], WorkerStep(0, Yields(v))) == s[7]
            && Enabled(s[7], WorkerStep(0, Yields(v))) && Step(s[7], WorkerStep(0, Yields(v))) == s[8]
  {
    OneWorkerStep(Call(Started, Ready, 2, false, 0, 2, 0, None, None, false), Yields(v));
    OneWorkerStep(Call(Started, Guarded, 2, false, 0, 2, 0, None, None, false), Yields(v));
    OneWorkerStep(Call(Started, Ran, 2, false, 0, 2, 0, Some(v), None, false), Yields(v));
    OneWorkerStep(Call(Started, Notified, 2, false, 0, 2, 0, Some(v), None, true), Yields(v));
  }

  /** The race the protocol allows: the worker can be through, and have released the runnable, while
      the starter has yet to duplicate it; one reference then keeps it alive. */
  lemma {:induction false} WorkerMayFinishFirst(v: nat)
    ensures Execution([Invoke, CallerStep(0, 0), CallerStep(0, 0), CallerStep(0, 0),
                       WorkerStep(0, Yields(v)), WorkerStep(0, Yields(v)), WorkerStep(0, Yields(v)), WorkerStep(0, Yields(v))], FastWorker(v))
    ensures var c := FastWorker(v)[8].calls[0]; c.caller == Started && c.worker == Finished && c.runnableCount == 1
  {
    FastWorkerStarts(v);
    FastWorkerFinishes(v);
  }
}
