/**
 The fan-out of events to polling sessions (server/json-adapter.cc:136-151, 306-340, 390-429).  Threads
 deliver, poll and close at the same time.  `_mtx` guards the map of listeners, but the queues are also
 used without it: a poller keeps its queue after unlocking, also when the session is closed meanwhile.
 So the model is a transition system whose steps are the atomic actions of the threads.
 */
module EventQueues {
  import opened Wrappers
  import opened JsonValues
  import Utf8

  /** A session is known by its thread or by an explicit session id. */
  datatype Key = ThreadKey(tid: nat) | SessionKey(id: string)

  datatype Message = Request(request: Value) | QueueClose

  datatype Pop = Pop(thread: nat, message: Message)

  /**
   A queue, its history and its lifetime: everything popped from it so far, and the number of events that
   had been delivered in all when it was created and when it was closed.
   */
  datatype Queue = Queue(items: seq<Message>, popped: seq<Pop>, start: nat, end: Option<nat>)

  /** Where a thread is inside `pollForEvents`; `from` is the length of the history when it got the queue. */
  datatype Poller =
    | HasQueue(q: nat, from: nat)
    | Fetching(q: nat, from: nat, left: nat, got: seq<Message>)
    | Blocked(q: nat, from: nat)

  /** Who holds `_mtx`, between the atomic actions. */
  datatype Lock = Free | Delivering(request: Value, pending: set<nat>) | Closing(key: Key) | Erasing(key: Key)

  /** An array returned by `pollForEvents`. */
  datatype Answer = Answer(thread: nat, q: nat, from: nat, to: nat, messages: seq<Message>)

  /** `log` is every event ever delivered, in the order of the deliveries. */
  datatype State = State(
    listeners: map<Key, nat>,
    queues: seq<Queue>,
    log: seq<Value>,
    lock: Lock,
    pollers: map<nat, Poller>,
    answers: seq<Answer>)

  const INITIAL: State := State(map[], [], [], Free, map[], [])

  datatype Step =
    | DeliverLock(request: Value)        // takes the lock
    | DeliverPush(q: nat)                // one turn of the loop over the listeners
    | DeliverUnlock
    | PollStart(thread: nat, key: Key)   // finds or makes the queue, under the lock
    | PollLook(thread: nat)              // reads the size
    | PollPop(thread: nat)               // pops, of a known number of events or after blocking
    | PollTimeout(thread: nat)
    | CloseLock(key: Key)
    | CloseNudge                         // one turn of the loop that wakes the waiting pollers
    | CloseNoWaiters
    | CloseErase

  /**
   A poller may be waiting inside a pop of the queue: in the timed one, or in the counted loop when another
   thread has taken the events.  As pollers come and go without the lock, the closing thread may also read
   a count of zero at any time.
   */
  predicate MayWait(s: State, q: nat) {
    exists t :: t in s.pollers && !s.pollers[t].HasQueue? && s.pollers[t].q == q
  }

  function WithQueue(s: State, q: nat, queue: Queue): State
    requires q < |s.queues|
  {
    s.(queues := s.queues[q := queue])
  }

  function PushedTo(s: State, q: nat, m: Message): State
    requires q < |s.queues|
  {
    WithQueue(s, q, s.queues[q].(items := s.queues[q].items + [m]))
  }

  function PoppedBy(s: State, q: nat, thread: nat): State
    requires q < |s.queues| && s.queues[q].items != []
  {
    var queue := s.queues[q];
    WithQueue(s, q, queue.(items := queue.items[1..], popped := queue.popped + [Pop(thread, queue.items[0])]))
  }

  function Answered(s: State, thread: nat, q: nat, from: nat, messages: seq<Message>): State
    requires q < |s.queues|
  {
    s.(pollers := s.pollers - {thread}, answers := s.answers + [Answer(thread, q, from, |s.queues[q].popped|, messages)])
  }

  function StepDeliver(s: State, step: Step): Option<State> {
    match step
    case DeliverLock(r) =>
      if s.lock.Free? then Some(s.(lock := Delivering(r, s.listeners.Values), log := s.log + [r])) else None
    case DeliverPush(q) =>
      if s.lock.Delivering? && q in s.lock.pending && q < |s.queues|
      then Some(PushedTo(s, q, Request(s.lock.request)).(lock := Delivering(s.lock.request, s.lock.pending - {q}))) else None
    case DeliverUnlock => if s.lock.Delivering? && s.lock.pending == {} then Some(s.(lock := Free)) else None
    case _ => None
  }

  /** `eventListener[key]` adds an entry if there is none. */
  function Found(s: State, key: Key): State {
    if key in s.listeners then s
    else s.(listeners := s.listeners[key := |s.queues|], queues := s.queues + [Queue([], [], |s.log|, None)])
  }

  /** A poller takes the message it has popped: it answers, or fetches the next one. */
  function Collected(s: State, t: nat, m: Message): State
    requires t in s.pollers && !s.pollers[t].HasQueue? && s.pollers[t].q < |s.queues|
  {
    var p := s.pollers[t];
    if p.Blocked? then Answered(s, t, p.q, p.from, [m])
    else if p.left <= 1 then Answered(s, t, p.q, p.from, p.got + [m])
    else s.(pollers := s.pollers[t := Fetching(p.q, p.from, p.left - 1, p.got + [m])])
  }

  function StepPoll(s: State, step: Step): Option<State> {
    match step
    case PollStart(t, key) =>
      if s.lock.Free? && t !in s.pollers && (key in s.listeners ==> s.listeners[key] < |s.queues|) then
        var f := Found(s, key);
        Some(f.(pollers := f.pollers[t := HasQueue(f.listeners[key], |f.queues[f.listeners[key]].popped|)]))
      else None
    case PollLook(t) =>
      if t in s.pollers && s.pollers[t].HasQueue? && s.pollers[t].q < |s.queues| then
        var p := s.pollers[t];
        var size := |s.queues[p.q].items|;
        Some(s.(pollers := s.pollers[t := if size > 0 then Fetching(p.q, p.from, size, []) else Blocked(p.q, p.from)]))
      else None
    case PollPop(t) =>
      if t in s.pollers && !s.pollers[t].HasQueue? && s.pollers[t].q < |s.queues| && s.queues[s.pollers[t].q].items != [] then
        var q := s.pollers[t].q;
        Some(Collected(PoppedBy(s, q, t), t, s.queues[q].items[0]))
      else None
    case PollTimeout(t) =>
      if t in s.pollers && s.pollers[t].Blocked? && s.pollers[t].q < |s.queues| && s.queues[s.pollers[t].q].items == []
      then Some(Answered(s, t, s.pollers[t].q, s.pollers[t].from, [])) else None
    case _ => None
  }

  /** `close_session` and `connection_close_cb`, for a key that has a queue. */
  function StepClose(s: State, step: Step): Option<State> {
    match step
    case CloseLock(key) => if s.lock.Free? && key in s.listeners then Some(s.(lock := Closing(key))) else None
    case CloseNudge =>
      if s.lock.Closing? && s.lock.key in s.listeners && s.listeners[s.lock.key] < |s.queues| && MayWait(s, s.listeners[s.lock.key])
      then Some(PushedTo(s, s.listeners[s.lock.key], QueueClose)) else None
    case CloseNoWaiters =>
      if s.lock.Closing? && s.lock.key in s.listeners
      then Some(s.(lock := Erasing(s.lock.key))) else None
    case CloseErase =>
      if s.lock.Erasing? && s.lock.key in s.listeners && s.listeners[s.lock.key] < |s.queues| then
        var q := s.listeners[s.lock.key];
        Some(WithQueue(s, q, s.queues[q].(end := Some(|s.log|))).(listeners := s.listeners - {s.lock.key}, lock := Free))
      else None
    case _ => None
  }

  /** The state after an atomic action, None if the action is not possible. */
  function Next(s: State, step: Step): Option<State> {
    match step
    case DeliverLock(_) => StepDeliver(s, step)
    case DeliverPush(_) => StepDeliver(s, step)
    case DeliverUnlock => StepDeliver(s, step)
    case PollStart(_, _) => StepPoll(s, step)
    case PollLook(_) => StepPoll(s, step)
    case PollPop(_) => StepPoll(s, step)
    case PollTimeout(_) => StepPoll(s, step)
    case _ => StepClose(s, step)
  }

  function Run(s: State, steps: seq<Step>): Option<State>
    decreases steps
  {
    if steps == [] then Some(s)
    else
      match Next(s, steps[0])
      case None => None
      case Some(s') => Run(s', steps[1..])
  }

  // Histories

  function Messages(pops: seq<Pop>): seq<Message> {
    if pops == [] then [] else Messages(pops[..|pops| - 1]) + [pops[|pops| - 1].message]
  }

  /** The messages that one thread popped. */
  function PoppedIn(pops: seq<Pop>, thread: nat): seq<Message> {
    if pops == [] then []
    else PoppedIn(pops[..|pops| - 1], thread) + if pops[|pops| - 1].thread == thread then [pops[|pops| - 1].message] else []
  }

  /** The delivered requests among the messages; the closing event is no request. */
  function Requests(ms: seq<Message>): seq<Value> {
    if ms == [] then [] else (if ms[0].Request? then [ms[0].request] else []) + Requests(ms[1..])
  }

  lemma {:induction false} RequestsConcat(a: seq<Message>, b: seq<Message>)
    ensures Requests(a + b) == Requests(a) + Requests(b)
  {
    if a == [] {
      assert a + b == b;
    } else {
      assert (a + b)[1..] == a[1..] + b;
      RequestsConcat(a[1..], b);
      Utf8.ConcatAssoc(if a[0].Request? then [a[0].request] else [], Requests(a[1..]), Requests(b));
    }
  }

  /** The requests that went through a queue: those popped, then those still waiting in it. */
  function Through(queue: Queue): seq<Value> {
    Requests(Messages(queue.popped)) + Requests(queue.items)
  }

  lemma PopKeepsThrough(queue: Queue, thread: nat)
    requires queue.items != []
    ensures Through(queue.(items := queue.items[1..], popped := queue.popped + [Pop(thread, queue.items[0])])) == Through(queue)
  {
    var p := Pop(thread, queue.items[0]);
    assert (queue.popped + [p])[..|queue.popped + [p]| - 1] == queue.popped;
    RequestsConcat(Messages(queue.popped), [p.message]);
    RequestsConcat([queue.items[0]], queue.items[1..]);
    assert [queue.items[0]] + queue.items[1..] == queue.items;
    var first, rest := Requests([p.message]), Requests(queue.items[1..]);
    assert Requests(Messages(queue.popped)) + first + rest == Requests(Messages(queue.popped)) + (first + rest);
  }

  lemma PushAddsToThrough(queue: Queue, m: Message)
    ensures Through(queue.(items := queue.items + [m])) == Through(queue) + if m.Request? then [m.request] else []
  {
    RequestsConcat(queue.items, [m]);
    assert Requests([m]) == (if m.Request? then [m.request] else []) + Requests([]);
    var tail := if m.Request? then [m.request] else [];
    assert Requests([m]) == tail;
    assert Requests(Messages(queue.popped)) + (Requests(queue.items) + tail) == Through(queue) + tail;
  }

  // The invariant

  predicate IsListed(s: State, q: nat) {
    q in s.listeners.Values
  }

  /** How far into the log a queue has been served. */
  function Served(s: State, q: nat): int
    requires q < |s.queues|
  {
    if s.queues[q].end.Some? then s.queues[q].end.value
    else |s.log| - if s.lock.Delivering? && q in s.lock.pending then 1 else 0
  }

  /** What has gone through a queue is the contiguous segment of the log that belongs to its lifetime. */
  ghost predicate QueueOk(s: State, q: nat)
    requires q < |s.queues|
  {
    && s.queues[q].start <= Served(s, q) <= |s.log|
    && Through(s.queues[q]) == s.log[s.queues[q].start..Served(s, q)]
    && (s.queues[q].end.None? <==> IsListed(s, q))
  }

  ghost predicate PollerOk(s: State, t: nat)
    requires t in s.pollers
  {
    var p := s.pollers[t];
    && p.q < |s.queues| && p.from <= |s.queues[p.q].popped|
    && PoppedIn(s.queues[p.q].popped[p.from..], t) == if p.Fetching? then p.got else []
  }

  ghost predicate AnswerOk(s: State, a: Answer) {
    && a.q < |s.queues| && a.from <= a.to <= |s.queues[a.q].popped|
    && a.messages == PoppedIn(s.queues[a.q].popped[a.from..a.to], a.thread)
  }

  ghost predicate LockOk(s: State) {
    match s.lock
    case Free => true
    case Delivering(r, pending) => s.log != [] && s.log[|s.log| - 1] == r && pending <= s.listeners.Values
    case Closing(key) => key in s.listeners
    case Erasing(key) => key in s.listeners
  }

  ghost predicate ListenersOk(s: State) {
    && (forall k :: k in s.listeners ==> s.listeners[k] < |s.queues|)
    && (forall k, k' :: k in s.listeners && k' in s.listeners && s.listeners[k] == s.listeners[k'] ==> k == k')
  }

  ghost predicate Inv(s: State) {
    && LockOk(s)
    && ListenersOk(s)
    && (forall q {:trigger QueueOk(s, q)} :: 0 <= q < |s.queues| ==> QueueOk(s, q))
    && (forall t {:trigger PollerOk(s, t)} :: t in s.pollers ==> PollerOk(s, t))
    && (forall a {:trigger AnswerOk(s, s.answers[a])} :: 0 <= a < |s.answers| ==> AnswerOk(s, s.answers[a]))
  }

  /** The invariant, apart from what it says about one poller. */
  ghost predicate InvBut(s: State, t: nat) {
    && LockOk(s)
    && ListenersOk(s)
    && (forall q {:trigger QueueOk(s, q)} :: 0 <= q < |s.queues| ==> QueueOk(s, q))
    && (forall u {:trigger PollerOk(s, u)} :: u in s.pollers && u != t ==> PollerOk(s, u))
    && (forall a {:trigger AnswerOk(s, s.answers[a])} :: 0 <= a < |s.answers| ==> AnswerOk(s, s.answers[a]))
  }

  /** Histories only grow, by pops at their end, so what was said about a part of them stays true. */
  ghost predicate Grows(s: State, s': State) {
    && |s.queues| <= |s'.queues|
    && forall q :: 0 <= q < |s.queues| ==>
         |s.queues[q].popped| <= |s'.queues[q].popped| && s'.queues[q].popped[..|s.queues[q].popped|] == s.queues[q].popped
  }

  lemma AnswerStays(s: State, s': State, a: Answer)
    requires Grows(s, s') && AnswerOk(s, a)
    ensures AnswerOk(s', a)
  {
    PartOfPrefix(s.queues[a.q].popped, s'.queues[a.q].popped, a.from, a.to);
  }

  lemma PartOfPrefix<T>(a: seq<T>, b: seq<T>, i: nat, j: nat)
    requires i <= j <= |a| <= |b| && b[..|a|] == a
    ensures b[i..j] == a[i..j]
  {
    forall k | i <= k < j ensures b[k] == a[k] {
      assert b[k] == b[..|a|][k];
    }
  }

  lemma DeliverKeepsInv(s: State, step: Step)
    requires Inv(s) && StepDeliver(s, step).Some?
    ensures Inv(StepDeliver(s, step).value)
  {
    if step.DeliverLock? {
      DeliverLockKeepsInv(s, step.request);
    } else if step.DeliverPush? {
      DeliverPushKeepsInv(s, step.q);
    } else {
      var s' := StepDeliver(s, step).value;
      forall q | 0 <= q < |s'.queues| ensures QueueOk(s', q) {
        assert QueueOk(s, q);
      }
      OthersStay(s, s');
    }
  }

  lemma DeliverLockKeepsInv(s: State, request: Value)
    requires Inv(s) && s.lock.Free?
    ensures Inv(StepDeliver(s, DeliverLock(request)).value)
  {
    var s' := StepDeliver(s, DeliverLock(request)).value;
    forall q | 0 <= q < |s'.queues| ensures QueueOk(s', q) {
      assert QueueOk(s, q);
      assert Served(s', q) == Served(s, q);
      assert s'.log[s.queues[q].start..Served(s, q)] == s.log[s.queues[q].start..Served(s, q)];
    }
    OthersStay(s, s');
  }

  lemma DeliverPushKeepsInv(s: State, p: nat)
    requires Inv(s) && s.lock.Delivering? && p in s.lock.pending && p < |s.queues|
    ensures Inv(StepDeliver(s, DeliverPush(p)).value)
  {
    var s' := StepDeliver(s, DeliverPush(p)).value;
    var n := |s.log|;
    assert QueueOk(s, p);
    PushAddsToThrough(s.queues[p], Request(s.lock.request));
    assert s.log[s.queues[p].start..n] == s.log[s.queues[p].start..n - 1] + [s.log[n - 1]];
    forall q | 0 <= q < |s'.queues| ensures QueueOk(s', q) {
      assert QueueOk(s, q);
    }
    OthersStay(s, s');
  }

  lemma CloseKeepsInv(s: State, step: Step)
    requires Inv(s) && StepClose(s, step).Some?
    ensures Inv(StepClose(s, step).value)
  {
    if step.CloseNudge? {
      NudgeKeepsInv(s, s.listeners[s.lock.key]);
    } else if step.CloseErase? {
      EraseKeepsInv(s, s.lock.key);
    } else {
      OnlyLockChanges(s, StepClose(s, step).value);
    }
  }

  lemma OnlyLockChanges(s: State, s': State)
    requires Inv(s) && s' == s.(lock := s'.lock) && LockOk(s') && !s.lock.Delivering? && !s'.lock.Delivering?
    ensures Inv(s')
  {
    forall q | 0 <= q < |s'.queues| ensures QueueOk(s', q) {
      assert QueueOk(s, q);
    }
    forall a | 0 <= a < |s'.answers| ensures AnswerOk(s', s'.answers[a]) {
      assert AnswerOk(s, s.answers[a]);
    }
    forall t | t in s'.pollers ensures PollerOk(s', t) {
      assert PollerOk(s, t);
    }
  }

  lemma NudgeKeepsInv(s: State, q: nat)
    requires Inv(s) && q < |s.queues|
    ensures Inv(PushedTo(s, q, QueueClose))
  {
    var s' := PushedTo(s, q, QueueClose);
    PushAddsToThrough(s.queues[q], QueueClose);
    assert Through(s'.queues[q]) == Through(s.queues[q]);
    forall r | 0 <= r < |s'.queues| ensures QueueOk(s', r) {
      assert QueueOk(s, r);
    }
    OthersStay(s, s');
  }

  lemma EraseKeepsInv(s: State, key: Key)
    requires Inv(s) && s.lock == Erasing(key)
    ensures Inv(StepClose(s, CloseErase).value)
  {
    var s' := StepClose(s, CloseErase).value;
    forall q | 0 <= q < |s'.queues| ensures QueueOk(s', q) {
      assert QueueOk(s, q);
      ErasedIsUnlisted(s, key, q);
    }
    OthersStay(s, s');
  }

  /** While no history changes, pollers and answers are as right as before. */
  lemma OthersStay(s: State, s': State)
    requires Inv(s) && |s'.queues| == |s.queues| && s'.pollers == s.pollers && s'.answers == s.answers
    requires forall q :: 0 <= q < |s.queues| ==> s'.queues[q].popped == s.queues[q].popped
    ensures forall a :: 0 <= a < |s'.answers| ==> AnswerOk(s', s'.answers[a])
    ensures forall t :: t in s'.pollers ==> PollerOk(s', t)
  {
    forall a | 0 <= a < |s'.answers| ensures AnswerOk(s', s'.answers[a]) {
      assert AnswerOk(s, s.answers[a]);
    }
    forall t | t in s'.pollers ensures PollerOk(s', t) {
      assert PollerOk(s, t);
    }
  }

  lemma ErasedIsUnlisted(s: State, key: Key, q: nat)
    requires ListenersOk(s) && key in s.listeners
    ensures q in (s.listeners - {key}).Values <==> q in s.listeners.Values && q != s.listeners[key]
  {
    var m := s.listeners - {key};
    if q in s.listeners.Values && q != s.listeners[key] {
      var k :| k in s.listeners && s.listeners[k] == q;
      assert k in m && m[k] == q;
    }
  }

  lemma {:induction false} PoppedInSnoc(pops: seq<Pop>, p: Pop, thread: nat)
    ensures PoppedIn(pops + [p], thread) == PoppedIn(pops, thread) + if p.thread == thread then [p.message] else []
  {
    assert (pops + [p])[..|pops + [p]| - 1] == pops;
  }

  lemma ListingOneMore(m: map<Key, nat>, key: Key, n: nat, q: nat)
    requires key !in m
    ensures q in m[key := n].Values <==> q in m.Values || q == n
  {
    var m' := m[key := n];
    assert m'[key] == n;
    if q in m.Values {
      var k :| k in m && m[k] == q;
      assert k in m' && m'[k] == q;
    }
  }

  lemma FoundKeepsInv(s: State, key: Key)
    requires Inv(s) && s.lock.Free?
    ensures Inv(Found(s, key)) && key in Found(s, key).listeners
  {
    if key !in s.listeners {
      var s', n := Found(s, key), |s.queues|;
      forall q | 0 <= q < |s'.queues| ensures QueueOk(s', q) {
        ListingOneMore(s.listeners, key, n, q);
        if q < n {
          assert QueueOk(s, q);
        } else {
          assert !IsListed(s, n);
          assert s.log[|s.log|..|s.log|] == [];
        }
      }
      forall a | 0 <= a < |s'.answers| ensures AnswerOk(s', s'.answers[a]) {
        AnswerStays(s, s', s.answers[a]);
      }
      forall t | t in s'.pollers ensures PollerOk(s', t) {
        assert PollerOk(s, t);
      }
    }
  }

  /** A queue stays right while nothing but its pops changes, and what went through it is the same. */
  lemma QueueStays(s: State, queues: seq<Queue>, r: nat)
    requires r < |s.queues| == |queues| && QueueOk(s, r)
    requires queues[r].start == s.queues[r].start && queues[r].end == s.queues[r].end
    requires Through(queues[r]) == Through(s.queues[r])
    ensures QueueOk(s.(queues := queues), r)
  {
  }

  lemma PopKeepsQueues(s: State, q: nat, t: nat)
    requires Inv(s) && q < |s.queues| && s.queues[q].items != []
    ensures forall r :: 0 <= r < |s.queues| ==> QueueOk(PoppedBy(s, q, t), r)
  {
    forall r | 0 <= r < |s.queues| ensures QueueOk(PoppedBy(s, q, t), r) {
      assert QueueOk(s, r);
      if r == q {
        PopKeepsThrough(s.queues[q], t);
      }
      QueueStays(s, PoppedBy(s, q, t).queues, r);
    }
  }

  lemma PopKeepsAnswers(s: State, q: nat, t: nat)
    requires Inv(s) && q < |s.queues| && s.queues[q].items != []
    ensures forall a :: 0 <= a < |s.answers| ==> AnswerOk(PoppedBy(s, q, t), s.answers[a])
  {
    var s' := PoppedBy(s, q, t);
    forall a | 0 <= a < |s.answers| ensures AnswerOk(s', s.answers[a]) {
      assert AnswerOk(s, s.answers[a]);
      AnswerStays(s, s', s.answers[a]);
    }
  }

  lemma PopKeepsInv(s: State, t: nat)
    requires Inv(s) && t in s.pollers && PollerOk(s, t) && s.queues[s.pollers[t].q].items != []
    ensures var s', p := PoppedBy(s, s.pollers[t].q, t), s.pollers[t];
            && InvBut(s', t) && p.from <= |s'.queues[p.q].popped|
            && PoppedIn(s'.queues[p.q].popped[p.from..], t) ==
               PoppedIn(s.queues[p.q].popped[p.from..], t) + [s.queues[p.q].items[0]]
  {
    var p := s.pollers[t];
    var s' := PoppedBy(s, p.q, t);
    var queue := s.queues[p.q];
    PopKeepsQueues(s, p.q, t);
    PopKeepsAnswers(s, p.q, t);
    forall u | u in s'.pollers && u != t ensures PollerOk(s', u) {
      assert PollerOk(s, u);
      if s.pollers[u].q == p.q {
        PoppedInAfterPop(queue.popped, s.pollers[u].from, Pop(t, queue.items[0]), u);
      }
    }
    PoppedInAfterPop(queue.popped, p.from, Pop(t, queue.items[0]), t);
  }

  lemma PoppedInAfterPop(pops: seq<Pop>, from: nat, p: Pop, thread: nat)
    requires from <= |pops|
    ensures PoppedIn((pops + [p])[from..], thread) == PoppedIn(pops[from..], thread) + if p.thread == thread then [p.message] else []
  {
    assert (pops + [p])[from..] == pops[from..] + [p];
    PoppedInSnoc(pops[from..], p, thread);
  }

  lemma AnsweredKeepsInv(s: State, t: nat, messages: seq<Message>)
    requires InvBut(s, t) && t in s.pollers
    requires s.pollers[t].q < |s.queues| && s.pollers[t].from <= |s.queues[s.pollers[t].q].popped|
    requires messages == PoppedIn(s.queues[s.pollers[t].q].popped[s.pollers[t].from..], t)
    ensures Inv(Answered(s, t, s.pollers[t].q, s.pollers[t].from, messages))
  {
    var p := s.pollers[t];
    var s' := Answered(s, t, p.q, p.from, messages);
    var popped := s.queues[p.q].popped;
    assert popped[p.from..|popped|] == popped[p.from..];
    forall q | 0 <= q < |s'.queues| ensures QueueOk(s', q) {
      assert QueueOk(s, q);
    }
    forall u | u in s'.pollers ensures PollerOk(s', u) {
      assert PollerOk(s, u);
    }
    forall a | 0 <= a < |s'.answers| ensures AnswerOk(s', s'.answers[a]) {
      if a < |s.answers| {
        assert AnswerOk(s, s.answers[a]);
      }
    }
  }

  /** Replacing one poller's state keeps the invariant if the new state is right. */
  lemma PollerMovesOn(s: State, t: nat, p: Poller)
    requires InvBut(s, t)
    requires PollerOk(s.(pollers := s.pollers[t := p]), t)
    ensures Inv(s.(pollers := s.pollers[t := p]))
  {
    var s' := s.(pollers := s.pollers[t := p]);
    forall q | 0 <= q < |s'.queues| ensures QueueOk(s', q) {
      assert QueueOk(s, q);
    }
    forall u | u in s'.pollers ensures PollerOk(s', u) {
      if u != t {
        assert PollerOk(s, u);
      }
    }
    forall a | 0 <= a < |s'.answers| ensures AnswerOk(s', s'.answers[a]) {
      assert AnswerOk(s, s.answers[a]);
    }
  }

  lemma CollectedKeepsInv(s: State, t: nat, m: Message)
    requires InvBut(s, t) && t in s.pollers && !s.pollers[t].HasQueue? && s.pollers[t].q < |s.queues|
    requires var p := s.pollers[t];
             && p.from <= |s.queues[p.q].popped|
             && PoppedIn(s.queues[p.q].popped[p.from..], t) == (if p.Fetching? then p.got else []) + [m]
    ensures Inv(Collected(s, t, m))
  {
    var p := s.pollers[t];
    if p.Blocked? {
      assert [] + [m] == [m];
      AnsweredKeepsInv(s, t, [m]);
    } else if p.left <= 1 {
      AnsweredKeepsInv(s, t, p.got + [m]);
    } else {
      PollerMovesOn(s, t, Fetching(p.q, p.from, p.left - 1, p.got + [m]));
    }
  }

  lemma PollPopKeepsInv(s: State, t: nat)
    requires Inv(s) && StepPoll(s, PollPop(t)).Some?
    ensures Inv(StepPoll(s, PollPop(t)).value)
  {
    var q := s.pollers[t].q;
    assert PollerOk(s, t);
    PopKeepsInv(s, t);
    CollectedKeepsInv(PoppedBy(s, q, t), t, s.queues[q].items[0]);
  }

  lemma PollKeepsInv(s: State, step: Step)
    requires Inv(s) && StepPoll(s, step).Some?
    ensures Inv(StepPoll(s, step).value)
  {
    match step
    case PollStart(t, key) =>
      FoundKeepsInv(s, key);
      var f := Found(s, key);
      var q := f.listeners[key];
      assert f.queues[q].popped[|f.queues[q].popped|..] == [];
      PollerMovesOn(f, t, HasQueue(q, |f.queues[q].popped|));
    case PollLook(t) =>
      var p := s.pollers[t];
      assert PollerOk(s, t);
      var size := |s.queues[p.q].items|;
      PollerMovesOn(s, t, if size > 0 then Fetching(p.q, p.from, size, []) else Blocked(p.q, p.from));
    case PollPop(t) => PollPopKeepsInv(s, t);
    case PollTimeout(t) =>
      assert PollerOk(s, t);
      AnsweredKeepsInv(s, t, []);
    case _ =>
  }

  /** Every atomic action of every thread keeps the invariant. */
  lemma NextKeepsInv(s: State, step: Step)
    requires Inv(s) && Next(s, step).Some?
    ensures Inv(Next(s, step).value)
  {
    match step
    case DeliverLock(_) => DeliverKeepsInv(s, step);
    case DeliverPush(_) => DeliverKeepsInv(s, step);
    case DeliverUnlock => DeliverKeepsInv(s, step);
    case PollStart(_, _) => PollKeepsInv(s, step);
    case PollLook(_) => PollKeepsInv(s, step);
    case PollPop(_) => PollKeepsInv(s, step);
    case PollTimeout(_) => PollKeepsInv(s, step);
    case _ => CloseKeepsInv(s, step);
  }

  lemma {:induction false} RunKeepsInv(s: State, steps: seq<Step>)
    requires Inv(s) && Run(s, steps).Some?
    ensures Inv(Run(s, steps).value)
    decreases steps
  {
    if steps != [] {
      NextKeepsInv(s, steps[0]);
      RunKeepsInv(Next(s, steps[0]).value, steps[1..]);
    }
  }

  // What every interleaving guarantees

  ghost predicate Reachable(s: State) {
    exists steps :: Run(INITIAL, steps) == Some(s)
  }

  lemma ReachableIsInv(s: State)
    requires Reachable(s)
    ensures Inv(s)
  {
    var steps :| Run(INITIAL, steps) == Some(s);
    RunKeepsInv(INITIAL, steps);
  }

  /**
   Nothing is lost, doubled or reordered: what was popped from a session's queue and what still waits in
   it is the segment of the log from the poll that made the queue on; up to the close, or to now, except
   that a delivery in progress may not have reached the queue yet.
   */
  lemma DeliveredInOrder(s: State, q: nat)
    requires Reachable(s) && q < |s.queues|
    ensures s.queues[q].start <= Served(s, q) <= |s.log|
    ensures Requests(Messages(s.queues[q].popped)) + Requests(s.queues[q].items) == s.log[s.queues[q].start..Served(s, q)]
    ensures IsListed(s, q) && s.lock.Free? ==> Served(s, q) == |s.log|
  {
    ReachableIsInv(s);
    assert QueueOk(s, q);
  }

  /** All sessions see the events of a common stretch of the log alike. */
  lemma SameOrderForAll(s: State, q: nat, r: nat, i: nat, j: nat)
    requires Reachable(s) && q < |s.queues| && r < |s.queues|
    requires s.queues[q].start <= i <= j <= Served(s, q) && s.queues[r].start <= i <= j <= Served(s, r)
    ensures |Through(s.queues[q])| == Served(s, q) - s.queues[q].start
    ensures |Through(s.queues[r])| == Served(s, r) - s.queues[r].start
    ensures Through(s.queues[q])[i - s.queues[q].start..j - s.queues[q].start] ==
            Through(s.queues[r])[i - s.queues[r].start..j - s.queues[r].start]
  {
    ReachableIsInv(s);
    assert QueueOk(s, q) && QueueOk(s, r);
    PartOfPart(s.log, s.queues[q].start, Served(s, q), i, j);
    PartOfPart(s.log, s.queues[r].start, Served(s, r), i, j);
  }

  lemma PartOfPart<T>(log: seq<T>, a: nat, b: nat, i: nat, j: nat)
    requires a <= i <= j <= b <= |log|
    ensures log[a..b][i - a..j - a] == log[i..j]
  {
    forall k | 0 <= k < j - i ensures log[a..b][i - a..j - a][k] == log[i..j][k] {
      assert log[a..b][i - a + k] == log[i + k];
    }
  }

  /** A closed queue is served no further, whatever the threads do afterwards; nor is its segment taken back. */
  lemma {:induction false} ClosedStaysClosed(s: State, steps: seq<Step>, q: nat)
    requires Inv(s) && Run(s, steps).Some? && q < |s.queues| && s.queues[q].end.Some?
    ensures var s' := Run(s, steps).value;
            q < |s'.queues| && s'.queues[q].end == s.queues[q].end && Through(s'.queues[q]) == Through(s.queues[q])
    decreases steps
  {
    if steps != [] {
      var n := Next(s, steps[0]).value;
      NextKeepsInv(s, steps[0]);
      NextKeepsClosed(s, steps[0], q);
      ClosedStaysClosed(n, steps[1..], q);
    }
  }

  lemma NextKeepsClosed(s: State, step: Step, q: nat)
    requires Inv(s) && Next(s, step).Some? && q < |s.queues| && s.queues[q].end.Some?
    ensures var n := Next(s, step).value;
            && q < |n.queues| && n.queues[q].end == s.queues[q].end
            && Through(n.queues[q]) == Through(s.queues[q])
  {
    assert QueueOk(s, q) && !IsListed(s, q);
    if StepDeliver(s, step).Some? {
      assert StepDeliver(s, step).value.queues[q] == s.queues[q];
    } else if StepClose(s, step).Some? {
      assert StepClose(s, step).value.queues[q] == s.queues[q];
    } else if step.PollPop? && s.pollers[step.thread].q == q {
      PopKeepsThrough(s.queues[q], step.thread);
    }
  }

  /**
   The array that a poll returns is what its thread popped from the queue, in order.  If no other thread
   popped from that queue meanwhile, it is the whole stretch of the history since the poll began.
   */
  lemma AnswersAreHistory(s: State, a: Answer)
    requires Reachable(s) && a in s.answers
    ensures a.q < |s.queues| && a.from <= a.to <= |s.queues[a.q].popped|
    ensures a.messages == PoppedIn(s.queues[a.q].popped[a.from..a.to], a.thread)
    ensures (forall i :: a.from <= i < a.to ==> s.queues[a.q].popped[i].thread == a.thread) ==>
              a.messages == Messages(s.queues[a.q].popped[a.from..a.to])
  {
    ReachableIsInv(s);
    var i :| 0 <= i < |s.answers| && s.answers[i] == a;
    assert AnswerOk(s, s.answers[i]);
    var part := s.queues[a.q].popped[a.from..a.to];
    if forall i :: a.from <= i < a.to ==> s.queues[a.q].popped[i].thread == a.thread {
      assert forall i :: 0 <= i < |part| ==> part[i] == s.queues[a.q].popped[a.from + i];
      AloneIsAll(part, a.thread);
    }
  }

  lemma {:induction false} AloneIsAll(pops: seq<Pop>, thread: nat)
    requires forall i :: 0 <= i < |pops| ==> pops[i].thread == thread
    ensures PoppedIn(pops, thread) == Messages(pops)
  {
    if pops != [] {
      AloneIsAll(pops[..|pops| - 1], thread);
    }
  }
}
