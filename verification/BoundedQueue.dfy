/** The monitor of bounded_queue.h as atomic steps of arbitrarily many threads. */
module BoundedQueue {

  type ThreadId = nat

  datatype Call<T> = Push(d: T) | Pop(front: bool) | WaitEmpty

  /** `cv_ok_to_pop_` and `cv_ok_to_push_`; the latter also holds the callers of WaitEmpty. */
  datatype Condition = OkToPop | OkToPush

  function WaitsOn<T>(c: Call<T>): Condition {
    if c.Pop? then OkToPop else OkToPush
  }

  /** A thread inside a wait: asleep, or woken (notified or spuriously) and about to check again. */
  datatype Waiter<T> = Waiter(call: Call<T>, asleep: bool)

  datatype Outcome = Blocked | Returned(ok: bool)

  /** The monitor's fields, who is waiting, and what happened so far: the elements accepted and popped, in
      order, and whether only PopFront was used. */
  datatype State<T> = State(
    queue: seq<T>, kill: bool, capacity: nat, waiting: map<ThreadId, Waiter<T>>,
    accepted: seq<T>, popped: seq<T>, onlyFront: bool)

  function Init<T>(capacity: nat): State<T> {
    State([], false, capacity, map[], [], [], true)
  }

  /** The threads waiting on a condition variable, asleep or awake. */
  ghost function Who<T>(w: map<ThreadId, Waiter<T>>, cv: Condition, asleep: bool): set<ThreadId> {
    set t | t in w && WaitsOn(w[t].call) == cv && w[t].asleep == asleep
  }

  function Wake<T>(w: map<ThreadId, Waiter<T>>, t: ThreadId): map<ThreadId, Waiter<T>>
    requires t in w
  {
    w[t := w[t].(asleep := false)]
  }

  /** `notify_one`: any one sleeper on cv, when there is one. */
  ghost predicate NotifyOne<T>(w: map<ThreadId, Waiter<T>>, w': map<ThreadId, Waiter<T>>, cv: Condition) {
    if Who(w, cv, true) == {} then w' == w
    else exists t :: t in Who(w, cv, true) && w' == Wake(w, t)
  }

  /** The loop condition that sends a caller to sleep. */
  predicate MustWait<T>(s: State<T>, c: Call<T>) {
    !s.kill && match c
               case Push(_) => |s.queue| >= s.capacity
               case Pop(_) => s.queue == []
               case WaitEmpty => s.queue != []
  }

  function TakeFrom<T>(q: seq<T>, front: bool): (T, seq<T>)
    requires q != []
  {
    if front then (q[0], q[1..]) else (q[|q| - 1], q[..|q| - 1])
  }

  /** The rest of Push once there is room. */
  ghost predicate Accept<T>(s: State<T>, s': State<T>, left: map<ThreadId, Waiter<T>>, d: T) {
    && s' == s.(queue := s.queue + [d], accepted := s.accepted + [d], waiting := s'.waiting)
    && NotifyOne(left, s'.waiting, OkToPop)
  }

  /** The rest of PopImpl once there is an element. */
  ghost predicate Take<T>(s: State<T>, s': State<T>, left: map<ThreadId, Waiter<T>>, front: bool)
    requires s.queue != []
  {
    var (x, rest) := TakeFrom(s.queue, front);
    && s' == s.(queue := rest, popped := s.popped + [x], onlyFront := s.onlyFront && front, waiting := s'.waiting)
    && (if |rest| < s.capacity then NotifyOne(left, s'.waiting, OkToPush) else s'.waiting == left)
  }

  /** Thread t, holding the mutex, runs call c from its loop condition to the next wait or return. */
  ghost predicate Section<T>(s: State<T>, s': State<T>, t: ThreadId, c: Call<T>, out: Outcome) {
    && (t in s.waiting ==> s.waiting[t] == Waiter(c, false))
    && var left := s.waiting - {t};
       if MustWait(s, c) then out == Blocked && s' == s.(waiting := s.waiting[t := Waiter(c, true)])
       else if s.kill then out == Returned(false) && s' == s.(waiting := left)
       else
         && out == Returned(true)
         && match c
            case Push(d) => Accept(s, s', left, d)
            case Pop(front) => Take(s, s', left, front)
            case WaitEmpty => s' == s.(waiting := left)
  }

  /** A sleeper that wakes without being notified. */
  ghost predicate Spurious<T>(s: State<T>, s': State<T>, t: ThreadId) {
    t in s.waiting && s' == s.(waiting := Wake(s.waiting, t))
  }

  /** `EndQueue`: the kill switch and both `notify_all`. */
  function Ended<T>(s: State<T>): State<T> {
    s.(kill := true, waiting := map t | t in s.waiting :: s.waiting[t].(asleep := false))
  }

  datatype Event<T> = Ran(t: ThreadId, c: Call<T>, out: Outcome) | WokeUp(t: ThreadId) | End

  ghost predicate Step<T>(s: State<T>, s': State<T>, e: Event<T>) {
    match e
    case Ran(t, c, out) => Section(s, s', t, c, out)
    case WokeUp(t) => Spurious(s, s', t)
    case End => s' == Ended(s)
  }

  /** A run: the states and the events between them. */
  ghost predicate Run<T>(states: seq<State<T>>, events: seq<Event<T>>, capacity: nat) {
    |states| == |events| + 1 && states[0] == Init(capacity)
    && forall i :: 0 <= i < |events| ==> Step(states[i], states[i + 1], events[i])
  }

  // Safety.

  ghost predicate Safe<T>(s: State<T>) {
    |s.queue| <= s.capacity
    && multiset(s.accepted) == multiset(s.popped) + multiset(s.queue)
    && (s.onlyFront ==> s.accepted == s.popped + s.queue)
    && (s.kill ==> forall t :: t in s.waiting ==> !s.waiting[t].asleep)
    && (forall t :: t in s.waiting && s.waiting[t].call.WaitEmpty? ==> s.capacity > 0 && s.accepted != [])
  }

  lemma AcceptSafe<T>(s: State<T>, s': State<T>, left: map<ThreadId, Waiter<T>>, d: T)
    requires Safe(s) && !s.kill && |s.queue| < s.capacity && Accept(s, s', left, d)
    ensures Safe(s')
  {
  }

  lemma TakeSafe<T>(s: State<T>, s': State<T>, left: map<ThreadId, Waiter<T>>, front: bool)
    requires Safe(s) && !s.kill && s.queue != [] && Take(s, s', left, front)
    ensures Safe(s')
  {
    if front {
      assert s.queue == [s.queue[0]] + s.queue[1..];
    } else {
      assert s.queue == s.queue[..|s.queue| - 1] + [s.queue[|s.queue| - 1]];
    }
  }

  lemma SafeStep<T>(s: State<T>, s': State<T>, e: Event<T>)
    requires Safe(s) && Step(s, s', e)
    ensures Safe(s') && s'.capacity == s.capacity
    ensures s.kill ==> s'.kill && s'.queue == s.queue && (e.Ran? ==> e.out == Returned(false))
  {
    hide NotifyOne, Safe;
    if e.WokeUp? {
      SleepSafe(s, s');
    } else if e.End? || s.kill {
      DeadSafe(s, s', e);
    } else if MustWait(s, e.c) {
      BlockSafe(s, s', e.t, e.c);
    } else {
      if e.c.Push? {
        AcceptSafe(s, s', s.waiting - {e.t}, e.c.d);
      } else if e.c.Pop? {
        TakeSafe(s, s', s.waiting - {e.t}, e.c.front);
      } else {
        QueueKept(s, s');
      }
    }
  }

  lemma SleepSafe<T>(s: State<T>, s': State<T>)
    requires Safe(s) && s' == s.(waiting := s'.waiting) && s'.waiting.Keys == s.waiting.Keys
    requires forall t <- s.waiting :: s'.waiting[t].call == s.waiting[t].call
    requires forall t <- s.waiting :: s'.waiting[t].asleep ==> s.waiting[t].asleep
    ensures Safe(s')
  {
  }

  lemma DeadSafe<T>(s: State<T>, s': State<T>, e: Event<T>)
    requires Safe(s) && Step(s, s', e) && (e.End? || (s.kill && e.Ran?))
    ensures Safe(s') && s'.kill && s'.capacity == s.capacity && s'.queue == s.queue
    ensures s.kill && e.Ran? ==> e.out == Returned(false)
  {
  }

  lemma BlockSafe<T>(s: State<T>, s': State<T>, t: ThreadId, c: Call<T>)
    requires Safe(s) && MustWait(s, c) && s' == s.(waiting := s.waiting[t := Waiter(c, true)])
    ensures Safe(s')
  {
    if c.WaitEmpty? {
      assert s.queue[0] in multiset(s.accepted);
    }
  }

  lemma QueueKept<T>(s: State<T>, s': State<T>)
    requires Safe(s) && !s'.kill
    requires s' == s.(waiting := s'.waiting) && (forall t <- s'.waiting :: t in s.waiting)
    requires forall t <- s'.waiting :: s'.waiting[t] == s.waiting[t]
    ensures Safe(s')
  {
  }

  /** Over every run: the length stays within the capacity, nothing is lost or invented, PopFront alone keeps
      the order, and a dead queue never changes and refuses every call. */
  lemma {:induction false} RunsAreSafe<T>(states: seq<State<T>>, events: seq<Event<T>>, capacity: nat, i: nat)
    requires Run(states, events, capacity) && i < |states|
    ensures Safe(states[i]) && states[i].capacity == capacity
    ensures i < |events| && states[i].kill ==>
              states[i + 1].kill && states[i + 1].queue == states[i].queue
              && (events[i].Ran? ==> events[i].out == Returned(false))
  {
    hide Step, Safe;
    if i == 0 {
      InitSafe<T>(capacity);
    } else {
      RunsAreSafe(states, events, capacity, i - 1);
      StepAt(states, events, capacity, i - 1);
      SafeStep(states[i - 1], states[i], events[i - 1]);
    }
    if i < |events| {
      StepAt(states, events, capacity, i);
      SafeStep(states[i], states[i + 1], events[i]);
    }
  }

  lemma InitSafe<T>(capacity: nat)
    ensures Safe(Init<T>(capacity))
  {
  }

  lemma StepAt<T>(states: seq<State<T>>, events: seq<Event<T>>, capacity: nat, i: nat)
    requires Run(states, events, capacity) && i < |events|
    ensures Step(states[i], states[i + 1], events[i])
  {
  }

  // What a call does to the elements.

  /** Every call, by its outcome: when it waits, when it is refused, and what a successful one puts in or takes out,
      from which end. */
  lemma CallLaw<T>(s: State<T>, s': State<T>, t: ThreadId, c: Call<T>, out: Outcome)
    requires Step(s, s', Ran(t, c, out))
    ensures out == Returned(false) <==> s.kill
    ensures out == Blocked <==>
              !s.kill && match c
                         case Push(_) => |s.queue| >= s.capacity
                         case Pop(_) => s.queue == []
                         case WaitEmpty => s.queue != []
    ensures out == Returned(true) ==>
              match c
              case Push(d) =>
                s'.queue == s.queue + [d] && s'.accepted == s.accepted + [d] && s'.popped == s.popped
              case Pop(front) =>
                && |s'.popped| == |s.popped| + 1 && s'.accepted == s.accepted
                && var x := s'.popped[|s.popped|];
                   s'.popped == s.popped + [x] && s.queue == if front then [x] + s'.queue else s'.queue + [x]
              case WaitEmpty =>
                s.queue == [] && s'.queue == [] && s'.accepted == s.accepted && s'.popped == s.popped
    ensures out != Returned(true) ==>
              s'.queue == s.queue && s'.accepted == s.accepted && s'.popped == s.popped
    ensures t in s'.waiting <==> out == Blocked
  {
    hide Who, NotifyOne;
    if out == Returned(true) && !c.WaitEmpty? {
      NotifyKeeps(s.waiting - {t}, s'.waiting, if c.Push? then OkToPop else OkToPush);
      if c.Pop? {
        TakenFromEnd(s.queue, c.front);
      }
    }
  }

  lemma NotifyKeeps<T>(w: map<ThreadId, Waiter<T>>, w': map<ThreadId, Waiter<T>>, cv: Condition)
    ensures NotifyOne(w, w', cv) ==> w'.Keys == w.Keys
  {
  }

  lemma TakenFromEnd<T>(q: seq<T>, front: bool)
    requires q != []
    ensures var (x, rest) := TakeFrom(q, front); q == if front then [x] + rest else rest + [x]
  {
  }

  predicate FrontPop<T>(e: Event<T>) {
    e.Ran? && e.c.Pop? && e.c.front && e.out == Returned(true)
  }

  lemma StackStep<T>(s: State<T>, s': State<T>, e: Event<T>, n: nat)
    requires Step(s, s', e) && !FrontPop(e) && n <= |s.queue| && n <= |s'.queue|
    ensures s'.queue[..n] == s.queue[..n]
  {
    if e.Ran? {
      CallLaw(s, s', e.t, e.c, e.out);
      hide Step;
    }
  }

  /** While nobody pops from the front, what lies below the lowest level the queue reached stays in place. */
  lemma {:induction false} StackKeeps<T>(states: seq<State<T>>, events: seq<Event<T>>, capacity: nat, i: nat, j: nat)
    requires Run(states, events, capacity) && i <= j < |states|
    requires forall k :: i <= k < j ==> !FrontPop(events[k])
    requires forall k :: i <= k <= j ==> |states[k].queue| >= |states[i].queue|
    ensures states[j].queue[..|states[i].queue|] == states[i].queue
    decreases j
  {
    var n := |states[i].queue|;
    if j == i {
      assert states[i].queue[..n] == states[i].queue;
    } else {
      StackKeeps(states, events, capacity, i, j - 1);
      StepAt(states, events, capacity, j - 1);
      hide Step;
      StackStep(states[j - 1], states[j], events[j - 1], n);
    }
  }

  /** PopBack makes the queue a stack: over a run in which nobody pops from the front, the pop that first brings the
      queue back to its length before a push returns the element of that push and leaves the queue as it was. */
  lemma LastInFirstOut<T>(states: seq<State<T>>, events: seq<Event<T>>, capacity: nat, i: nat, j: nat, d: T)
    requires Run(states, events, capacity) && i < j < |events|
    requires events[i].Ran? && events[i].c == Push(d) && events[i].out == Returned(true)
    requires events[j].Ran? && events[j].c.Pop? && events[j].out == Returned(true)
    requires forall k :: i <= k <= j ==> !FrontPop(events[k])
    requires forall k :: i < k <= j ==> |states[k].queue| > |states[i].queue|
    requires |states[j + 1].queue| == |states[i].queue|
    ensures states[j + 1].popped == states[j].popped + [d] && states[j + 1].queue == states[i].queue
  {
    StepAt(states, events, capacity, i);
    StepAt(states, events, capacity, j);
    CallLaw(states[i], states[i + 1], events[i].t, events[i].c, events[i].out);
    CallLaw(states[j], states[j + 1], events[j].t, events[j].c, events[j].out);
    hide Step;
    StackKeeps(states, events, capacity, i + 1, j);
    var n := |states[i].queue|;
    assert states[j].queue == states[j].queue[..n + 1] == states[i].queue + [d];
  }

  // No lost wakeup.

  /** What a condition's waiters are waiting for: elements, or free slots. */
  function Available<T>(s: State<T>, cv: Condition): int {
    if cv.OkToPop? then |s.queue| else s.capacity - |s.queue|
  }

  /** If a thread sleeps on cv, no more is available than the awake waiters on cv are about to look at. */
  ghost predicate NoLostWakeup<T>(s: State<T>, cv: Condition) {
    !s.kill && Who(s.waiting, cv, true) != {} ==> Available(s, cv) <= |Who(s.waiting, cv, false)|
  }

  lemma Leave<T>(w: map<ThreadId, Waiter<T>>, t: ThreadId, cv: Condition)
    requires t in w ==> !w[t].asleep
    ensures Who(w - {t}, cv, true) == Who(w, cv, true)
    ensures |Who(w - {t}, cv, false)| == |Who(w, cv, false)| - if t in Who(w, cv, false) then 1 else 0
  {
    assert Who(w - {t}, cv, false) == Who(w, cv, false) - {t};
  }

  lemma WakeOne<T>(w: map<ThreadId, Waiter<T>>, t: ThreadId, cv: Condition)
    requires t in w && w[t].asleep
    ensures Who(Wake(w, t), cv, true) == Who(w, cv, true) - {t}
    ensures |Who(Wake(w, t), cv, false)| == |Who(w, cv, false)| + if WaitsOn(w[t].call) == cv then 1 else 0
  {
    var awake := Who(w, cv, false);
    assert t !in awake;
    if WaitsOn(w[t].call) == cv {
      assert Who(Wake(w, t), cv, false) == awake + {t};
    } else {
      assert Who(Wake(w, t), cv, false) == awake;
    }
  }

  /** A notification moves one sleeper of its own condition, if there is one, and nobody else. */
  lemma Notified<T>(w: map<ThreadId, Waiter<T>>, w': map<ThreadId, Waiter<T>>, on: Condition, cv: Condition)
    requires NotifyOne(w, w', on)
    ensures cv != on || Who(w, on, true) == {} ==>
              Who(w', cv, true) == Who(w, cv, true) && Who(w', cv, false) == Who(w, cv, false)
    ensures cv == on && Who(w, on, true) != {} ==> |Who(w', cv, false)| == |Who(w, cv, false)| + 1
  {
    if Who(w, on, true) != {} {
      var t :| t in Who(w, on, true) && w' == Wake(w, t);
      WakeOne(w, t, cv);
      if cv != on {
        assert Who(w', cv, false) == Who(w, cv, false);
      }
    }
  }

  lemma AcceptKeeps<T>(s: State<T>, s': State<T>, t: ThreadId, d: T, cv: Condition)
    requires Safe(s) && NoLostWakeup(s, cv) && !s.kill && |s.queue| < s.capacity
    requires t in s.waiting ==> s.waiting[t] == Waiter(Push(d), false)
    requires Accept(s, s', s.waiting - {t}, d)
    ensures NoLostWakeup(s', cv)
  {
    hide Who, NotifyOne;
    Leave(s.waiting, t, cv);
    Notified(s.waiting - {t}, s'.waiting, OkToPop, cv);
    Member(s.waiting, t, cv);
  }

  lemma TakeKeeps<T>(s: State<T>, s': State<T>, t: ThreadId, front: bool, cv: Condition)
    requires Safe(s) && NoLostWakeup(s, cv) && !s.kill && s.queue != []
    requires t in s.waiting ==> s.waiting[t] == Waiter(Pop(front), false)
    requires Take(s, s', s.waiting - {t}, front)
    ensures NoLostWakeup(s', cv)
  {
    hide Who, NotifyOne;
    Leave(s.waiting, t, cv);
    Notified(s.waiting - {t}, s'.waiting, OkToPush, cv);
    Member(s.waiting, t, cv);
  }

  lemma Member<T>(w: map<ThreadId, Waiter<T>>, t: ThreadId, cv: Condition)
    ensures t in Who(w, cv, false) <==> t in w && WaitsOn(w[t].call) == cv && !w[t].asleep
  {
  }

  lemma BlockKeeps<T>(s: State<T>, s': State<T>, t: ThreadId, c: Call<T>, cv: Condition)
    requires Safe(s) && NoLostWakeup(s, cv) && MustWait(s, c) && (cv.OkToPop? || !c.WaitEmpty?)
    requires t in s.waiting ==> s.waiting[t] == Waiter(c, false)
    requires s'.queue == s.queue && s'.capacity == s.capacity && s'.waiting == s.waiting[t := Waiter(c, true)]
    ensures NoLostWakeup(s', cv)
  {
    if WaitsOn(c) != cv {
      assert Who(s'.waiting, cv, true) == Who(s.waiting, cv, true);
      assert Who(s'.waiting, cv, false) == Who(s.waiting, cv, false);
    }
  }

  lemma LeaveKeeps<T>(s: State<T>, s': State<T>, t: ThreadId)
    requires NoLostWakeup(s, OkToPop) && !s.kill
    requires t in s.waiting ==> s.waiting[t] == Waiter(WaitEmpty, false)
    requires s'.queue == s.queue && s'.waiting == s.waiting - {t} && !s'.kill
    ensures NoLostWakeup(s', OkToPop)
  {
    Leave(s.waiting, t, OkToPop);
  }

  /** Every step keeps it for the poppers. */
  lemma StepKeepsPoppers<T>(s: State<T>, s': State<T>, e: Event<T>)
    requires Safe(s) && NoLostWakeup(s, OkToPop) && Step(s, s', e)
    ensures NoLostWakeup(s', OkToPop)
  {
    hide NoLostWakeup, Safe, Accept, Take;
    match e
    case Ran(t, c, out) =>
      if MustWait(s, c) {
        BlockKeeps(s, s', t, c, OkToPop);
      } else if s.kill {
        DeadKeeps(s', OkToPop);
      } else {
        match c
        case Push(d) => AcceptKeeps(s, s', t, d, OkToPop);
        case Pop(front) => TakeKeeps(s, s', t, front, OkToPop);
        case WaitEmpty => LeaveKeeps(s, s', t);
      }
    case WokeUp(t) => SpuriousKeeps(s, s', t, OkToPop);
    case End => DeadKeeps(s', OkToPop);
  }

  lemma DeadKeeps<T>(s: State<T>, cv: Condition)
    requires s.kill
    ensures NoLostWakeup(s, cv)
  {
  }

  lemma SpuriousKeeps<T>(s: State<T>, s': State<T>, t: ThreadId, cv: Condition)
    requires NoLostWakeup(s, cv) && Spurious(s, s', t)
    ensures NoLostWakeup(s', cv)
  {
    if s.waiting[t].asleep {
      WakeOne(s.waiting, t, cv);
    } else {
      assert s'.waiting == s.waiting;
    }
  }

  // The pushers share their condition variable with the callers of WaitEmpty.

  /** Thread t waits on `cv_ok_to_push_`. */
  predicate OnPush<T>(s: State<T>, t: ThreadId) {
    t in s.waiting && WaitsOn(s.waiting[t].call) == OkToPush
  }

  predicate InWaitEmpty<T>(s: State<T>, t: ThreadId) {
    t in s.waiting && s.waiting[t].call == WaitEmpty
  }

  /** A caller of WaitEmpty waits beside another thread, a pusher or a second caller of WaitEmpty. */
  ghost predicate Mixed<T>(s: State<T>) {
    !s.kill && exists t, u :: InWaitEmpty(s, t) && OnPush(s, u) && u != t
  }

  /** No wakeup is lost on `cv_ok_to_push_`: not for pushers while no WaitEmpty waits, and a sleeping WaitEmpty
      still has something to wait for. */
  ghost predicate NoneLostOnPush<T>(s: State<T>) {
    !s.kill ==>
      && ((forall t :: !InWaitEmpty(s, t)) ==> NoLostWakeup(s, OkToPush))
      && (forall t :: InWaitEmpty(s, t) && s.waiting[t].asleep ==> s.queue != [])
  }

  lemma BlockKeepsPush<T>(s: State<T>, s': State<T>, t: ThreadId, c: Call<T>)
    requires Safe(s) && NoneLostOnPush(s) && !Mixed(s') && MustWait(s, c)
    requires t in s.waiting ==> s.waiting[t] == Waiter(c, false)
    requires s' == s.(waiting := s.waiting[t := Waiter(c, true)])
    ensures NoneLostOnPush(s')
  {
    hide NoLostWakeup, Safe;
    assert InWaitEmpty(s', t) <==> c.WaitEmpty?;
    assert OnPush(s', t) <==> !c.Pop?;
    assert forall u :: u != t ==> (InWaitEmpty(s, u) <==> InWaitEmpty(s', u));
    if !c.WaitEmpty? && forall u :: !InWaitEmpty(s, u) {
      BlockKeeps(s, s', t, c, OkToPush);
    }
  }

  lemma AcceptKeepsPush<T>(s: State<T>, s': State<T>, t: ThreadId, d: T)
    requires Safe(s) && NoneLostOnPush(s) && !s.kill && |s.queue| < s.capacity
    requires t in s.waiting ==> s.waiting[t] == Waiter(Push(d), false)
    requires Accept(s, s', s.waiting - {t}, d)
    ensures NoneLostOnPush(s')
  {
    hide NoLostWakeup, Safe;
    if forall u :: !InWaitEmpty(s, u) {
      AcceptKeeps(s, s', t, d, OkToPush);
    } else {
      var u :| InWaitEmpty(s, u);
      assert InWaitEmpty(s', u);
    }
  }

  /** A pop that empties the queue wakes the only thread on `cv_ok_to_push_`. */
  lemma TakeKeepsPush<T>(s: State<T>, s': State<T>, t: ThreadId, front: bool)
    requires Safe(s) && NoneLostOnPush(s) && !Mixed(s) && !s.kill && s.queue != []
    requires t in s.waiting ==> s.waiting[t] == Waiter(Pop(front), false)
    requires Take(s, s', s.waiting - {t}, front)
    ensures NoneLostOnPush(s')
  {
    hide NoLostWakeup;
    if forall u :: !InWaitEmpty(s, u) {
      hide Safe;
      TakeKeeps(s, s', t, front, OkToPush);
      assert forall u :: InWaitEmpty(s', u) ==> InWaitEmpty(s, u);
    } else {
      var u :| InWaitEmpty(s, u);
      var left := s.waiting - {t};
      assert InWaitEmpty(s', u);
      assert forall v :: v in Who(left, OkToPush, true) ==> OnPush(s, v);
      assert left[u].asleep ==> u in Who(left, OkToPush, true);
      assert forall v :: InWaitEmpty(s', v) ==> InWaitEmpty(s, v);
    }
  }

  lemma LeaveKeepsPush<T>(s: State<T>, s': State<T>, t: ThreadId)
    requires NoneLostOnPush(s) && !Mixed(s) && !s.kill
    requires t in s.waiting ==> s.waiting[t] == Waiter(WaitEmpty, false)
    requires s' == s.(waiting := s.waiting - {t})
    ensures NoneLostOnPush(s')
  {
    if t in s.waiting {
      assert InWaitEmpty(s, t);
      assert forall u :: u in Who(s'.waiting, OkToPush, true) ==> OnPush(s, u) && u != t;
      assert Who(s'.waiting, OkToPush, true) == {};
    } else {
      assert s'.waiting == s.waiting;
    }
  }

  lemma SpuriousKeepsPush<T>(s: State<T>, s': State<T>, t: ThreadId)
    requires NoneLostOnPush(s) && Spurious(s, s', t)
    ensures NoneLostOnPush(s')
  {
    hide NoLostWakeup;
    assert forall u :: InWaitEmpty(s, u) <==> InWaitEmpty(s', u);
    if !s.kill && forall u :: !InWaitEmpty(s, u) {
      SpuriousKeeps(s, s', t, OkToPush);
    }
  }

  /** Every step from and to a state that is not mixed keeps it. */
  lemma StepKeepsPushers<T>(s: State<T>, s': State<T>, e: Event<T>)
    requires Safe(s) && NoneLostOnPush(s) && !Mixed(s) && !Mixed(s') && Step(s, s', e)
    ensures NoneLostOnPush(s')
  {
    hide NoneLostOnPush, Mixed, Safe, Accept, Take;
    match e
    case Ran(t, c, out) =>
      if MustWait(s, c) {
        BlockKeepsPush(s, s', t, c);
      } else if s.kill {
        DeadKeepsPush(s');
      } else {
        match c
        case Push(d) => AcceptKeepsPush(s, s', t, d);
        case Pop(front) => TakeKeepsPush(s, s', t, front);
        case WaitEmpty => LeaveKeepsPush(s, s', t);
      }
    case WokeUp(t) => SpuriousKeepsPush(s, s', t);
    case End => DeadKeepsPush(s');
  }

  lemma DeadKeepsPush<T>(s: State<T>)
    requires s.kill
    ensures NoneLostOnPush(s)
  {
  }

  /** No lost wakeup, in every state of every run with any number of threads: for poppers always, on
      `cv_ok_to_push_` as long as no state so far was mixed. */
  lemma {:induction false} NoWakeupIsLost<T>(states: seq<State<T>>, events: seq<Event<T>>, capacity: nat, i: nat)
    requires Run(states, events, capacity) && i < |states|
    ensures NoLostWakeup(states[i], OkToPop)
    ensures (forall j :: 0 <= j <= i ==> !Mixed(states[j])) ==> NoneLostOnPush(states[i])
  {
    hide Step, Safe, NoLostWakeup, Mixed, NoneLostOnPush;
    if i == 0 {
      NobodyWaits<T>(capacity);
    } else {
      NoWakeupIsLost(states, events, capacity, i - 1);
      RunsAreSafe(states, events, capacity, i - 1);
      StepAt(states, events, capacity, i - 1);
      StepKeepsPoppers(states[i - 1], states[i], events[i - 1]);
      if forall j :: 0 <= j <= i ==> !Mixed(states[j]) {
        StepKeepsPushers(states[i - 1], states[i], events[i - 1]);
      }
    }
  }

  lemma NobodyWaits<T>(capacity: nat)
    ensures NoLostWakeup(Init<T>(capacity), OkToPop) && NoneLostOnPush(Init<T>(capacity))
  {
    assert Who(Init<T>(capacity).waiting, OkToPop, true) == {};
    assert Who(Init<T>(capacity).waiting, OkToPush, true) == {};
  }

  /** A wakeup is lost: nobody is awake to act on it, yet some sleeper would not have to wait. */
  ghost predicate Lost<T>(s: State<T>) {
    && !s.kill
    && (forall t <- s.waiting :: s.waiting[t].asleep)
    && exists t :: t in s.waiting && !MustWait(s, s.waiting[t].call)
  }

  /** As long as nothing was mixed, when no waiter is awake every sleeper has to wait: poppers for an element,
      pushers for a slot, WaitEmpty for the last element to go; and poppers do not sleep beside the others. */
  lemma NoDeadlock<T>(states: seq<State<T>>, events: seq<Event<T>>, capacity: nat, i: nat)
    requires Run(states, events, capacity) && i < |states|
    requires forall j :: 0 <= j <= i ==> !Mixed(states[j])
    ensures !Lost(states[i])
    ensures var s := states[i];
            !s.kill && (forall t <- s.waiting :: s.waiting[t].asleep) && capacity > 0 ==>
              Who(s.waiting, OkToPop, true) == {} || Who(s.waiting, OkToPush, true) == {}
  {
    NoWakeupIsLost(states, events, capacity, i);
    RunsAreSafe(states, events, capacity, i);
    var s := states[i];
    if !s.kill && forall t <- s.waiting :: s.waiting[t].asleep {
      forall t | t in s.waiting ensures MustWait(s, s.waiting[t].call) {
        SleeperMustWait(s, t);
      }
      assert forall t :: t in Who(s.waiting, OkToPop, true) ==> MustWait(s, s.waiting[t].call);
      assert forall t :: t in Who(s.waiting, OkToPush, true) ==> MustWait(s, s.waiting[t].call);
    }
  }

  lemma SleeperMustWait<T>(s: State<T>, t: ThreadId)
    requires Safe(s) && NoLostWakeup(s, OkToPop) && NoneLostOnPush(s) && !Mixed(s) && !s.kill
    requires t in s.waiting && forall u <- s.waiting :: s.waiting[u].asleep
    ensures MustWait(s, s.waiting[t].call)
  {
    assert t in Who(s.waiting, WaitsOn(s.waiting[t].call), true);
    assert Who(s.waiting, OkToPop, false) == {} == Who(s.waiting, OkToPush, false);
    match s.waiting[t].call
    case Push(_) => assert OnPush(s, t) && forall u :: !InWaitEmpty(s, u);
    case Pop(_) =>
    case WaitEmpty => assert InWaitEmpty(s, t);
  }

  // Mixing loses wakeups.

  /** How a run goes on. */
  datatype Path<T> = Here | Then(state: State<T>, event: Event<T>, rest: Path<T>)

  function Joined<T>(p: Path<T>, q: Path<T>): Path<T> {
    if p.Here? then q else p.(rest := Joined(p.rest, q))
  }

  /** The path leads from s to s', and no thread joins those waiting on `cv_ok_to_push_`. */
  ghost predicate Reaches<T>(s: State<T>, s': State<T>, p: Path<T>)
    decreases p
  {
    match p
    case Here => s' == s
    case Then(m, e, rest) => Step(s, m, e) && NoneJoins(s, m) && Reaches(m, s', rest)
  }

  ghost predicate NoneJoins<T>(s: State<T>, s': State<T>) {
    forall t :: OnPush(s', t) ==> OnPush(s, t) && s'.waiting[t].call == s.waiting[t].call
  }

  lemma {:induction false} ReachesFurther<T>(s: State<T>, m: State<T>, s': State<T>, p: Path<T>, q: Path<T>)
    requires Reaches(s, m, p) && Reaches(m, s', q)
    ensures Reaches(s, s', Joined(p, q))
    decreases p
  {
    if p.Here? {
    } else {
      ReachesFurther(p.state, m, s', p.rest, q);
    }
  }

  /** The same threads wait on `cv_ok_to_push_` for the same reasons, as deeply asleep. */
  ghost predicate SameOnPush<T>(s: State<T>, s': State<T>) {
    forall t :: (OnPush(s, t) <==> OnPush(s', t)) && (OnPush(s, t) ==> s'.waiting[t] == s.waiting[t])
  }

  lemma {:induction false} Beyond(ids: set<ThreadId>) returns (t: ThreadId)
    ensures forall u :: u in ids ==> u < t
  {
    if ids == {} {
      t := 0;
    } else {
      var x :| x in ids;
      var rest := ids - {x};
      t := Beyond(rest);
      t := if x < t then t else x + 1;
      assert forall u :: u in ids ==> u == x || u in rest;
    }
  }

  /** One wake-up call on cv, whoever it reaches. */
  lemma SomeoneNotified<T>(w: map<ThreadId, Waiter<T>>, cv: Condition) returns (w': map<ThreadId, Waiter<T>>)
    ensures NotifyOne(w, w', cv) && w'.Keys == w.Keys
    ensures forall t :: t in w ==> w'[t].call == w[t].call && (WaitsOn(w[t].call) != cv ==> w'[t] == w[t])
  {
    w' := w;
    if Who(w, cv, true) != {} {
      var t :| t in Who(w, cv, true);
      w' := Wake(w, t);
    }
  }

  /** Other threads push until the queue is full. */
  lemma {:induction false} FillUp<T>(s: State<T>, d: T) returns (s': State<T>, p: Path<T>)
    requires !s.kill && |s.queue| <= s.capacity
    ensures Reaches(s, s', p) && SameOnPush(s, s')
    ensures !s'.kill && s'.capacity == s.capacity == |s'.queue|
    decreases s.capacity - |s.queue|
  {
    s', p := s, Here;
    if |s.queue| == s.capacity {
    } else {
      var t := Beyond(s.waiting.Keys);
      assert t !in s.waiting.Keys;
      assert s.waiting - {t} == s.waiting;
      var w := SomeoneNotified(s.waiting, OkToPop);
      var m := s.(queue := s.queue + [d], accepted := s.accepted + [d], waiting := w);
      assert Step(s, m, Ran(t, Push(d), Returned(true)));
      s', p := FillUp(m, d);
      p := Then(m, Ran(t, Push(d), Returned(true)), p);
    }
  }

  lemma BackToSleep<T>(s: State<T>, t: ThreadId, cv: Condition) returns (m: State<T>)
    requires t in Who(s.waiting, cv, false) && MustWait(s, s.waiting[t].call)
    ensures m == s.(waiting := s.waiting[t := s.waiting[t].(asleep := true)])
    ensures Step(s, m, Ran(t, s.waiting[t].call, Blocked)) && NoneJoins(s, m)
    ensures Who(m.waiting, cv, false) == Who(s.waiting, cv, false) - {t}
  {
    m := s.(waiting := s.waiting[t := s.waiting[t].(asleep := true)]);
    Blocks(s, t, s.waiting[t].call);
  }

  /** Everybody awake on cv looks, has to wait and goes back to sleep. */
  lemma {:induction false} Settle<T>(s: State<T>, cv: Condition) returns (s': State<T>, p: Path<T>)
    requires !s.kill
    requires forall t <- s.waiting :: WaitsOn(s.waiting[t].call) == cv ==> MustWait(s, s.waiting[t].call)
    ensures Reaches(s, s', p) && s' == s.(waiting := s'.waiting) && s'.waiting.Keys == s.waiting.Keys
    ensures forall t <- s.waiting :: s'.waiting[t] ==
              if WaitsOn(s.waiting[t].call) == cv then s.waiting[t].(asleep := true) else s.waiting[t]
    decreases |Who(s.waiting, cv, false)|
  {
    hide Step, NoneJoins;
    s', p := s, Here;
    if Who(s.waiting, cv, false) != {} {
      var t :| t in Who(s.waiting, cv, false);
      var m := BackToSleep(s, t, cv);
      s', p := Settle(m, cv);
      p := Then(m, Ran(t, s.waiting[t].call, Blocked), p);
    } else {
      assert forall t <- s.waiting :: WaitsOn(s.waiting[t].call) == cv ==> t !in Who(s.waiting, cv, false);
    }
  }

  lemma Blocks<T>(s: State<T>, t: ThreadId, c: Call<T>)
    requires MustWait(s, c) && (t in s.waiting ==> s.waiting[t] == Waiter(c, false))
    ensures Step(s, s.(waiting := s.waiting[t := Waiter(c, true)]), Ran(t, c, Blocked))
  {
  }

  lemma ReturnsEmpty<T>(s: State<T>, t: ThreadId)
    requires !s.kill && s.queue == [] && (t in s.waiting ==> s.waiting[t] == Waiter(WaitEmpty, false))
    ensures Step(s, s.(waiting := s.waiting - {t}), Ran(t, WaitEmpty, Returned(true)))
  {
  }

  /** Another thread takes an element and w is the one it notifies. */
  lemma TakesNotifying<T>(s: State<T>, t: ThreadId, w: ThreadId) returns (m: State<T>)
    requires !s.kill && s.queue != [] && |s.queue| <= s.capacity && t !in s.waiting
    requires OnPush(s, w) && s.waiting[w].asleep
    ensures m == s.(queue := s.queue[1..], popped := s.popped + [s.queue[0]], waiting := Wake(s.waiting, w))
    ensures Step(s, m, Ran(t, Pop(true), Returned(true)))
  {
    assert s.waiting - {t} == s.waiting;
    assert w in Who(s.waiting, OkToPush, true);
    m := s.(queue := s.queue[1..], popped := s.popped + [s.queue[0]], waiting := Wake(s.waiting, w));
  }

  /** Other threads empty the queue, and every notification goes to w, which alone returns. */
  lemma {:induction false} Drain<T>(s: State<T>, w: ThreadId) returns (s': State<T>, p: Path<T>)
    requires !s.kill && s.queue != [] && |s.queue| <= s.capacity
    requires w in s.waiting && s.waiting[w] == Waiter(WaitEmpty, true)
    ensures Reaches(s, s', p) && !s'.kill && s'.queue == [] && s'.capacity == s.capacity
    ensures s'.waiting == s.waiting - {w}
    decreases |s.queue|
  {
    hide Step;
    var t := Beyond(s.waiting.Keys);
    assert t !in s.waiting.Keys;
    var m := TakesNotifying(s, t, w);
    var e := Ran(t, Pop(true), Returned(true));
    if m.queue == [] {
      s' := m.(waiting := s.waiting - {w});
      assert m.waiting - {w} == s.waiting - {w};
      ReturnsEmpty(m, w);
      var last := Then(s', Ran(w, WaitEmpty, Returned(true)), Here);
      assert NoneJoins(s, m) && NoneJoins(m, s');
      assert Reaches(m, s', last);
      p := Then(m, e, last);
    } else {
      var x := m.(waiting := s.waiting);
      assert m.waiting[w := Waiter(WaitEmpty, true)] == s.waiting;
      Blocks(m, w, WaitEmpty);
      s', p := Drain(x, w);
      p := Then(x, Ran(w, WaitEmpty, Blocked), p);
      assert NoneJoins(s, m) && NoneJoins(m, x);
      assert Reaches(m, s', p);
      p := Then(m, e, p);
    }
  }

  lemma MixedLoses<T>(s: State<T>, w: ThreadId, u: ThreadId) returns (s': State<T>, p: Path<T>)
    requires !s.kill && |s.queue| <= s.capacity && s.capacity > 0 && s.accepted != []
    requires InWaitEmpty(s, w) && OnPush(s, u) && u != w
    ensures Reaches(s, s', p) && Lost(s')
  {
    hide Reaches, NoneJoins, Step;
    var full, p1 := FillUp(s, s.accepted[0]);
    assert OnPush(s, w) && OnPush(full, w) && OnPush(full, u);
    var calm, p2 := Settle(full, OkToPush);
    var drained, p3 := Drain(calm, w);
    var p4;
    s', p4 := Settle(drained, OkToPop);
    p := Joined(p1, Joined(p2, Joined(p3, p4)));
    ReachesFurther(calm, drained, s', p3, p4);
    ReachesFurther(full, calm, s', p2, Joined(p3, p4));
    ReachesFurther(s, full, s', p1, Joined(p2, Joined(p3, p4)));
    assert u in s'.waiting && !MustWait(s', s'.waiting[u].call);
  }

  /** From every mixed state the run can go on, without anybody else waiting on `cv_ok_to_push_`, to a state that
      has lost a wakeup. */
  lemma MixingLosesWakeup<T>(states: seq<State<T>>, events: seq<Event<T>>, capacity: nat, i: nat)
      returns (s': State<T>, p: Path<T>)
    requires Run(states, events, capacity) && i < |states| && Mixed(states[i])
    ensures Reaches(states[i], s', p) && Lost(s')
  {
    RunsAreSafe(states, events, capacity, i);
    var w, u :| InWaitEmpty(states[i], w) && OnPush(states[i], u) && u != w;
    hide Reaches, Run;
    s', p := MixedLoses(states[i], w, u);
  }

  lemma RunOn<T>(states: seq<State<T>>, events: seq<Event<T>>, capacity: nat, m: State<T>, e: Event<T>)
    requires Run(states, events, capacity) && Step(states[|states| - 1], m, e)
    ensures Run(states + [m], events + [e], capacity)
  {
    hide Step;
  }

  lemma KillStays<T>(s: State<T>, m: State<T>, e: Event<T>)
    requires Step(s, m, e)
    ensures s.kill ==> m.kill
  {
    hide NotifyOne, Who;
  }

  lemma JoinedBefore<T>(s: State<T>, m: State<T>, t: ThreadId)
    requires NoneJoins(s, m)
    ensures InWaitEmpty(m, t) ==> OnPush(m, t) && InWaitEmpty(s, t)
    ensures OnPush(m, t) ==> OnPush(s, t)
  {
  }

  lemma MixedBy<T>(s: State<T>, t: ThreadId, u: ThreadId)
    requires InWaitEmpty(s, t) && OnPush(s, u) && u != t && !s.kill
    ensures Mixed(s)
  {
  }

  lemma StillUnmixed<T>(s: State<T>, m: State<T>, e: Event<T>)
    requires !Mixed(s) && Step(s, m, e) && NoneJoins(s, m)
    ensures !Mixed(m)
  {
    if Mixed(m) {
      var t, u :| InWaitEmpty(m, t) && OnPush(m, u) && u != t;
      hide Step, NoneJoins, Mixed;
      KillStays(s, m, e);
      JoinedBefore(s, m, t);
      JoinedBefore(s, m, u);
      MixedBy(s, t, u);
    }
  }

  lemma {:induction false} StaysUnmixed<T>(states: seq<State<T>>, events: seq<Event<T>>, capacity: nat,
                                           s': State<T>, p: Path<T>)
    requires Run(states, events, capacity) && Reaches(states[|states| - 1], s', p)
    requires forall j :: 0 <= j < |states| ==> !Mixed(states[j])
    ensures !Lost(s')
    decreases p
  {
    var s := states[|states| - 1];
    if p.Here? {
      NoDeadlock(states, events, capacity, |states| - 1);
    } else {
      hide Step, Run, Mixed, NoneJoins, Lost;
      RunOn(states, events, capacity, p.state, p.event);
      StillUnmixed(s, p.state, p.event);
      StaysUnmixed(states + [p.state], events + [p.event], capacity, s', p.rest);
    }
  }

  /** The exact condition: a run that was not mixed before can lose a wakeup, with nobody else joining those on
      `cv_ok_to_push_`, if and only if it is mixed now. */
  lemma MixingExactly<T>(states: seq<State<T>>, events: seq<Event<T>>, capacity: nat)
    requires Run(states, events, capacity)
    requires forall j :: 0 <= j < |states| - 1 ==> !Mixed(states[j])
    ensures var s := states[|states| - 1]; Mixed(s) <==> exists s', p :: Reaches(s, s', p) && Lost(s')
  {
    var s := states[|states| - 1];
    if Mixed(s) {
      var s', p := MixingLosesWakeup(states, events, capacity, |states| - 1);
    } else {
      forall s', p | Reaches(s, s', p) ensures !Lost(s') {
        StaysUnmixed(states, events, capacity, s', p);
      }
    }
  }

  // At most one thread on the condition variable.

  ghost predicate OneOnPush<T>(s: State<T>) {
    forall t, u | t in s.waiting && u in s.waiting ::
      WaitsOn(s.waiting[t].call).OkToPush? && WaitsOn(s.waiting[u].call).OkToPush? ==> t == u
  }

  /** Whoever sleeps on `cv_ok_to_push_` still has to. */
  ghost predicate SleepersMustWait<T>(s: State<T>) {
    forall t :: t in s.waiting && s.waiting[t].asleep && WaitsOn(s.waiting[t].call).OkToPush? ==>
                  MustWait(s, s.waiting[t].call)
  }

  /** While at most one thread at a time has waited on `cv_ok_to_push_`, it sleeps only when it must. */
  lemma SoloWaiterIsWoken<T>(states: seq<State<T>>, events: seq<Event<T>>, capacity: nat, i: nat)
    requires Run(states, events, capacity) && i < |states|
    requires forall j :: 0 <= j <= i ==> OneOnPush(states[j])
    ensures SleepersMustWait(states[i])
  {
    forall j | 0 <= j <= i ensures !Mixed(states[j]) {
      assert OneOnPush(states[j]);
    }
    NoWakeupIsLost(states, events, capacity, i);
    RunsAreSafe(states, events, capacity, i);
    var s := states[i];
    forall t | t in s.waiting && s.waiting[t].asleep && WaitsOn(s.waiting[t].call).OkToPush?
      ensures MustWait(s, s.waiting[t].call)
    {
      assert t in Who(s.waiting, OkToPush, true) && OneOnPush(s);
      if s.waiting[t].call == WaitEmpty {
        assert InWaitEmpty(s, t);
      } else {
        assert Who(s.waiting, OkToPush, false) == {};
      }
    }
  }

  lemma PushesFirst<T>(a: T)
    ensures var s := Init<T>(1); Step(s, s.(queue := [a], accepted := [a]), Ran(1, Push(a), Returned(true)))
  {
    var s := Init<T>(1);
    assert s.waiting - {1} == s.waiting && Who(s.waiting, OkToPop, true) == {};
  }

  /** With two of them the notification can go to the wrong one: a pusher sleeps forever although the queue is
      empty and no thread is awake. */
  lemma SharedConditionLosesWakeup<T>(a: T, b: T) returns (states: seq<State<T>>, events: seq<Event<T>>)
    ensures Run(states, events, 1)
    ensures var s := states[|states| - 1];
            s.queue == [] && !s.kill && s.waiting == map[2 := Waiter(Push(b), true)]
            && Lost(s) && !SleepersMustWait(s) && !NoLostWakeup(s, OkToPush)
  {
    hide Step;
    var s0 := Init<T>(1);
    var s1 := s0.(queue := [a], accepted := [a]);
    PushesFirst(a);
    var s2 := s1.(waiting := s1.waiting[2 := Waiter(Push(b), true)]);
    Blocks(s1, 2, Push(b));
    var s3 := s2.(waiting := s2.waiting[3 := Waiter(WaitEmpty, true)]);
    Blocks(s2, 3, WaitEmpty);
    var s4 := TakesNotifying(s3, 4, 3);
    var s5 := s4.(waiting := s4.waiting - {3});
    ReturnsEmpty(s4, 3);
    states := [s0, s1, s2, s3, s4, s5];
    events := [Ran(1, Push(a), Returned(true)), Ran(2, Push(b), Blocked), Ran(3, WaitEmpty, Blocked),
               Ran(4, Pop(true), Returned(true)), Ran(3, WaitEmpty, Returned(true))];
    assert s5.waiting == map[2 := Waiter(Push(b), true)];
    assert 2 in Who(s5.waiting, OkToPush, true) && Who(s5.waiting, OkToPush, false) == {};
    assert 2 in s5.waiting && !MustWait(s5, s5.waiting[2].call);
  }

  /** Nobody pushes while anybody waits, and still one of two callers of WaitEmpty sleeps on at an empty queue: the
      pop that emptied it notified the other. */
  lemma TwoEmptyWaitersLoseWakeup<T>(a: T) returns (states: seq<State<T>>, events: seq<Event<T>>)
    ensures Run(states, events, 1) && |events| > 0 && events[0] == Ran(1, Push(a), Returned(true))
    ensures forall i :: 0 < i < |events| ==> events[i].Ran? && !events[i].c.Push?
    ensures var s := states[|states| - 1];
            s.queue == [] && s.waiting == map[3 := Waiter(WaitEmpty, true)] && Lost(s)
  {
    hide Step;
    var s0 := Init<T>(1);
    var s1 := s0.(queue := [a], accepted := [a]);
    PushesFirst(a);
    var s2 := s1.(waiting := s1.waiting[2 := Waiter(WaitEmpty, true)]);
    Blocks(s1, 2, WaitEmpty);
    var s3 := s2.(waiting := s2.waiting[3 := Waiter(WaitEmpty, true)]);
    Blocks(s2, 3, WaitEmpty);
    var s4 := TakesNotifying(s3, 4, 2);
    var s5 := s4.(waiting := s4.waiting - {2});
    ReturnsEmpty(s4, 2);
    states := [s0, s1, s2, s3, s4, s5];
    events := [Ran(1, Push(a), Returned(true)), Ran(2, WaitEmpty, Blocked), Ran(3, WaitEmpty, Blocked),
               Ran(4, Pop(true), Returned(true)), Ran(2, WaitEmpty, Returned(true))];
    assert s5.waiting == map[3 := Waiter(WaitEmpty, true)];
    assert 3 in s5.waiting && !MustWait(s5, s5.waiting[3].call);
  }

  /** The monitor object. Each method is what one thread does between taking the mutex and giving it up, by
      waiting or by returning; `waiting` is the content of the two condition variables. */
  class BoundedQueue<T> {
    var queue: seq<T>
    var killSwitch: bool
    var capacity: nat
    var waiting: map<ThreadId, Waiter<T>>
    ghost var accepted: seq<T>
    ghost var popped: seq<T>
    ghost var onlyFront: bool

    ghost function View(): State<T>
      reads this
    {
      State(queue, killSwitch, capacity, waiting, accepted, popped, onlyFront)
    }

    constructor (capacity: nat)
      ensures View() == Init(capacity)
    {
      queue, killSwitch, this.capacity, waiting := [], false, capacity, map[];
      accepted, popped, onlyFront := [], [], true;
    }

    method NotifyOneOn(cv: Condition)
      modifies this`waiting
      ensures NotifyOne(old(waiting), waiting, cv)
    {
      if t :| t in waiting && WaitsOn(waiting[t].call) == cv && waiting[t].asleep {
        assert t in Who(waiting, cv, true);
        waiting := Wake(waiting, t);
      } else {
        assert Who(waiting, cv, true) == {};
      }
    }

    method PushSection(t: ThreadId, d: T) returns (out: Outcome)
      requires t in waiting ==> waiting[t] == Waiter(Push(d), false)
      modifies this
      ensures Section(old(View()), View(), t, Push(d), out)
    {
      if |queue| >= capacity && !killSwitch {
        waiting := waiting[t := Waiter(Push(d), true)];
        return Blocked;
      }
      waiting := waiting - {t};
      if killSwitch {
        return Returned(false);
      }
      queue := queue + [d];
      accepted := accepted + [d];
      NotifyOneOn(OkToPop);
      return Returned(!killSwitch);
    }

    method PopSection(t: ThreadId, popFront: bool) returns (out: Outcome, d: seq<T>)
      requires t in waiting ==> waiting[t] == Waiter(Pop(popFront), false)
      modifies this
      ensures Section(old(View()), View(), t, Pop(popFront), out)
      ensures popped == old(popped) + d
    {
      d := [];
      if queue == [] && !killSwitch {
        waiting := waiting[t := Waiter(Pop(popFront), true)];
        return Blocked, d;
      }
      waiting := waiting - {t};
      if killSwitch {
        return Returned(false), d;
      }
      if popFront {
        d := [queue[0]];
        queue := queue[1..];
      } else {
        d := [queue[|queue| - 1]];
        queue := queue[..|queue| - 1];
      }
      popped := popped + d;
      onlyFront := onlyFront && popFront;
      if |queue| < capacity {
        NotifyOneOn(OkToPush);
      }
      return Returned(true), d;
    }

    method WaitEmptySection(t: ThreadId) returns (out: Outcome)
      requires t in waiting ==> waiting[t] == Waiter(WaitEmpty, false)
      modifies this
      ensures Section(old(View()), View(), t, WaitEmpty, out)
    {
      if queue != [] && !killSwitch {
        waiting := waiting[t := Waiter(WaitEmpty, true)];
        return Blocked;
      }
      waiting := waiting - {t};
      return Returned(!killSwitch);
    }

    method EndQueue()
      modifies this
      ensures View() == Ended(old(View()))
    {
      killSwitch := true;
      waiting := map t | t in waiting :: waiting[t].(asleep := false);
    }
  }
}
