/**
 Which session is answered from which queue (server/json-adapter.cc:390-429), told by the steps of a run: every poll
 is served from the queue that was made for its own key, and what it returns was waiting there or came while it blocked.
 */
module EventHistories {
  import opened Wrappers
  import opened JsonValues
  import opened EventQueues

  /** The state after the first `i` steps. */
  function After(steps: seq<Step>, i: nat): Option<State>
    requires i <= |steps|
  {
    Run(INITIAL, steps[..i])
  }

  lemma {:induction false} RunConcat(s: State, a: seq<Step>, b: seq<Step>)
    ensures Run(s, a + b) == match Run(s, a) case None => None case Some(m) => Run(m, b)
    decreases a
  {
    if a == [] {
      assert a + b == b;
    } else {
      assert (a + b)[1..] == a[1..] + b;
      if Next(s, a[0]).Some? {
        RunConcat(Next(s, a[0]).value, a[1..], b);
      }
    }
  }

  lemma AfterNext(steps: seq<Step>, i: nat)
    requires i < |steps| && After(steps, i + 1).Some?
    ensures After(steps, i).Some? && Next(After(steps, i).value, steps[i]) == After(steps, i + 1)
  {
    assert steps[..i + 1] == steps[..i] + [steps[i]] && [steps[i]][1..] == [];
    RunConcat(INITIAL, steps[..i], [steps[i]]);
  }

  lemma {:induction false} AfterBefore(steps: seq<Step>, i: nat, k: nat)
    requires i <= k <= |steps| && After(steps, k).Some?
    ensures After(steps, i).Some?
    decreases k - i
  {
    if i < k {
      AfterNext(steps, k - 1);
      AfterBefore(steps, i, k - 1);
    }
  }

  lemma AfterIsInv(steps: seq<Step>, i: nat)
    requires i <= |steps| && After(steps, i).Some?
    ensures Inv(After(steps, i).value)
  {
    RunKeepsInv(INITIAL, steps[..i]);
  }

  // Queues and their keys

  /** At step `i` a poll with this key made the queue. */
  ghost predicate MadeFor(steps: seq<Step>, q: nat, key: Key, i: nat) {
    && i < |steps| && steps[i].PollStart? && steps[i].key == key
    && After(steps, i + 1).Some? && After(steps, i).Some?
    && |After(steps, i).value.queues| == q && |After(steps, i + 1).value.queues| == q + 1
  }

  lemma {:induction false} QueuesGrow(steps: seq<Step>, i: nat, k: nat)
    requires i <= k <= |steps| && After(steps, k).Some?
    ensures After(steps, i).Some? && |After(steps, i).value.queues| <= |After(steps, k).value.queues|
    decreases k - i
  {
    if i < k {
      AfterNext(steps, k - 1);
      QueuesGrow(steps, i, k - 1);
    }
  }

  /** A queue is made once, for one key. */
  lemma MadeForOneKey(steps: seq<Step>, q: nat, key: Key, i: nat, key': Key, i': nat)
    requires MadeFor(steps, q, key, i) && MadeFor(steps, q, key', i')
    ensures i == i' && key == key'
  {
    if i < i' {
      QueuesGrow(steps, i + 1, i');
    } else if i' < i {
      QueuesGrow(steps, i' + 1, i);
    }
  }

  /** What is listed under a key was made for it. */
  lemma {:induction false} ListedIsMadeFor(steps: seq<Step>, k: nat, key: Key) returns (i: nat)
    requires k <= |steps| && After(steps, k).Some? && key in After(steps, k).value.listeners
    ensures i < k && MadeFor(steps, After(steps, k).value.listeners[key], key, i)
    decreases k
  {
    assert k > 0;
    AfterNext(steps, k - 1);
    var s, s' := After(steps, k - 1).value, After(steps, k).value;
    if key in s.listeners {
      i := ListedIsMadeFor(steps, k - 1, key);
      assert s'.listeners[key] == s.listeners[key];
    } else {
      i := k - 1;
    }
  }

  // Polls

  /** At step `i` the thread began to poll with this key, and the queue listed under the key was this one. */
  ghost predicate Began(steps: seq<Step>, thread: nat, key: Key, q: nat, from: nat, i: nat) {
    && i < |steps| && steps[i] == PollStart(thread, key) && After(steps, i + 1).Some?
    && var s := After(steps, i + 1).value;
       key in s.listeners && s.listeners[key] == q && q < |s.queues| && |s.queues[q].popped| == from
  }

  /** At step `j` the thread looked at the queue, and so many messages were waiting. */
  ghost predicate Looked(steps: seq<Step>, thread: nat, q: nat, waiting: nat, j: nat) {
    && j < |steps| && steps[j] == PollLook(thread) && After(steps, j).Some?
    && q < |After(steps, j).value.queues| && |After(steps, j).value.queues[q].items| == waiting
  }

  predicate IsPollOf(step: Step, thread: nat) {
    (step.PollStart? || step.PollLook? || step.PollPop? || step.PollTimeout?) && step.thread == thread
  }

  lemma OthersPoll(s: State, step: Step, thread: nat)
    requires Next(s, step).Some? && !IsPollOf(step, thread)
    ensures var s' := Next(s, step).value;
            (thread in s'.pollers <==> thread in s.pollers) &&
            (thread in s.pollers ==> s'.pollers[thread] == s.pollers[thread])
  {
  }

  /** Between the steps `i` and `k` the thread did not begin another poll. */
  predicate NoneBegun(steps: seq<Step>, thread: nat, i: nat, k: nat)
    requires k <= |steps|
  {
    forall m :: i < m < k ==> !(steps[m].PollStart? && steps[m].thread == thread)
  }

  /** How a poller came to be where it is, after `k` steps. */
  lemma {:induction false} PollerStory(steps: seq<Step>, k: nat, t: nat) returns (key: Key, i: nat, j: nat)
    requires k <= |steps| && After(steps, k).Some? && t in After(steps, k).value.pollers
    ensures i < k && NoneBegun(steps, t, i, k)
    ensures var p := After(steps, k).value.pollers[t];
            && Began(steps, t, key, p.q, p.from, i)
            && (p.Fetching? ==> p.left > 0 && i < j < k && Looked(steps, t, p.q, |p.got| + p.left, j))
            && (p.Blocked? ==> i < j < k && Looked(steps, t, p.q, 0, j))
    decreases k
  {
    assert k > 0;
    AfterNext(steps, k - 1);
    var s, step := After(steps, k - 1).value, steps[k - 1];
    if step.PollStart? && step.thread == t {
      key, i, j := step.key, k - 1, 0;
    } else {
      if !IsPollOf(step, t) {
        OthersPoll(s, step, t);
      }
      key, i, j := PollerStory(steps, k - 1, t);
      if step.PollLook? && step.thread == t {
        j := k - 1;
      }
    }
  }

  /** At step `k` the answer was given. */
  ghost predicate Gave(steps: seq<Step>, e: nat, a: Answer, k: nat) {
    && k < |steps| && After(steps, k).Some? && After(steps, k + 1).Some?
    && |After(steps, k).value.answers| == e && After(steps, k + 1).value.answers == After(steps, k).value.answers + [a]
  }

  lemma AnswersKept(s: State, step: Step)
    requires Next(s, step).Some?
    ensures var s' := Next(s, step).value;
            s'.answers != s.answers ==>
              && (step.PollPop? || step.PollTimeout?) && step.thread in s.pollers && |s'.answers| == |s.answers| + 1
              && s'.answers == s.answers + [s'.answers[|s.answers|]] && s'.answers[|s.answers|].thread == step.thread
  {
  }

  /** What the last step of a poll returns. */
  lemma LastStep(s: State, step: Step, a: Answer)
    requires Next(s, step).Some? && Next(s, step).value.answers == s.answers + [a] && (step.PollPop? || step.PollTimeout?)
    ensures step.thread in s.pollers
    ensures var p := s.pollers[step.thread];
            && !p.HasQueue? && a.thread == step.thread && a.q == p.q && a.from == p.from
            && |a.messages| == (if step.PollTimeout? then 0 else if p.Blocked? then 1 else |p.got| + 1)
            && (step.PollTimeout? ==> p.Blocked?) && (p.Fetching? ==> p.left <= 1)
  {
    var s' := Next(s, step).value;
    assert s'.answers[|s.answers|] == a;
  }

  /**
   Every answer goes to the thread that began a poll with some key, comes from the queue that was listed under this
   key then and was made for it, and holds as many messages as were waiting when the thread looked; if none were
   waiting, at most one.
   */
  lemma {:induction false} AnswerStory(steps: seq<Step>, n: nat, e: nat) returns (key: Key, m: nat, i: nat, j: nat, k: nat, waiting: nat)
    requires n <= |steps| && After(steps, n).Some? && e < |After(steps, n).value.answers|
    ensures m <= i < j < k < n
    ensures var a := After(steps, n).value.answers[e];
            && Gave(steps, e, a, k)
            && MadeFor(steps, a.q, key, m)
            && Began(steps, a.thread, key, a.q, a.from, i) && NoneBegun(steps, a.thread, i, k)
            && Looked(steps, a.thread, a.q, waiting, j)
            && if waiting > 0 then |a.messages| == waiting else |a.messages| <= 1
    decreases n
  {
    assert n > 0;
    AfterNext(steps, n - 1);
    var s, s', step := After(steps, n - 1).value, After(steps, n).value, steps[n - 1];
    AnswersKept(s, step);
    if e < |s.answers| {
      key, m, i, j, k, waiting := AnswerStory(steps, n - 1, e);
    } else {
      var a := s'.answers[e];
      k := n - 1;
      LastStep(s, step, a);
      key, i, j := PollerStory(steps, n - 1, step.thread);
      waiting := if s.pollers[step.thread].Blocked? then 0 else |s.pollers[step.thread].got| + s.pollers[step.thread].left;
      m := ListedIsMadeFor(steps, i + 1, key);
    }
  }

  /** No session is answered from the queue of another one. */
  lemma NoForeignAnswers(steps: seq<Step>, e: nat, e': nat)
    returns (key: Key, i: nat, k: nat, key': Key, i': nat, k': nat)
    requires Run(INITIAL, steps).Some?
    requires var s := Run(INITIAL, steps).value; e < |s.answers| && e' < |s.answers|
    ensures var s := Run(INITIAL, steps).value;
            var a, a' := s.answers[e], s.answers[e'];
            && i < k && Gave(steps, e, a, k) && Began(steps, a.thread, key, a.q, a.from, i) && NoneBegun(steps, a.thread, i, k)
            && i' < k' && Gave(steps, e', a', k') && Began(steps, a'.thread, key', a'.q, a'.from, i') && NoneBegun(steps, a'.thread, i', k')
            && (key != key' ==> a.q != a'.q)
  {
    assert steps[..|steps|] == steps;
    var m, j, w, m', j', w';
    key, m, i, j, k, w := AnswerStory(steps, |steps|, e);
    key', m', i', j', k', w' := AnswerStory(steps, |steps|, e');
    var s := Run(INITIAL, steps).value;
    if s.answers[e].q == s.answers[e'].q {
      MadeForOneKey(steps, s.answers[e].q, key, m, key', m');
    }
  }

  // Closing

  /** At step `i` the session was closed whose queue this was. */
  ghost predicate ClosedBy(steps: seq<Step>, q: nat, i: nat) {
    && i < |steps| && steps[i].CloseLock? && After(steps, i).Some?
    && var s := After(steps, i).value;
       steps[i].key in s.listeners && s.listeners[steps[i].key] == q
  }

  /** While a session is being closed, the listeners are those of the moment when that began. */
  lemma {:induction false} ClosingStory(steps: seq<Step>, k: nat) returns (i: nat)
    requires k <= |steps| && After(steps, k).Some?
    requires var s := After(steps, k).value; s.lock.Closing? || s.lock.Erasing?
    ensures i < k && steps[i] == CloseLock(After(steps, k).value.lock.key)
    ensures After(steps, i).Some? && After(steps, i).value.listeners == After(steps, k).value.listeners
    decreases k
  {
    assert k > 0;
    AfterNext(steps, k - 1);
    if steps[k - 1].CloseLock? {
      i := k - 1;
    } else {
      i := ClosingStory(steps, k - 1);
    }
  }

  ghost predicate HasClosingEvent(queue: Queue) {
    QueueClose in queue.items || exists p :: p in queue.popped && p.message == QueueClose
  }

  lemma ClosingEventIsNew(s: State, step: Step, q: nat)
    requires Inv(s) && Next(s, step).Some? && q < |Next(s, step).value.queues|
    requires var queue := Next(s, step).value.queues[q]; HasClosingEvent(queue) || queue.end.Some?
    ensures || (q < |s.queues| && (HasClosingEvent(s.queues[q]) || s.queues[q].end.Some?))
            || ((s.lock.Closing? || s.lock.Erasing?) && s.lock.key in s.listeners && s.listeners[s.lock.key] == q)
  {
    var s' := Next(s, step).value;
    if step.PollPop? && s.pollers[step.thread].q == q && HasClosingEvent(s'.queues[q]) {
      var queue, thread := s.queues[q], step.thread;
      assert s'.queues[q].popped == queue.popped + [Pop(thread, queue.items[0])];
      assert queue.items[0] in queue.items;
    }
  }

  /** A queue comes to its end, or holds the closing event, only if its own session is closed. */
  lemma {:induction false} ClosedByItsSession(steps: seq<Step>, k: nat, q: nat) returns (i: nat)
    requires k <= |steps| && After(steps, k).Some? && q < |After(steps, k).value.queues|
    requires var queue := After(steps, k).value.queues[q]; HasClosingEvent(queue) || queue.end.Some?
    ensures i < k && ClosedBy(steps, q, i)
    decreases k
  {
    assert k > 0;
    AfterNext(steps, k - 1);
    AfterIsInv(steps, k - 1);
    var s := After(steps, k - 1).value;
    ClosingEventIsNew(s, steps[k - 1], q);
    if q < |s.queues| && (HasClosingEvent(s.queues[q]) || s.queues[q].end.Some?) {
      i := ClosedByItsSession(steps, k - 1, q);
    } else {
      i := ClosingStory(steps, k - 1);
    }
  }

  // Nothing stands still

  /** With the lock free, every event can be delivered, every thread can begin to poll, and every listed session be closed. */
  lemma FreeLockServes(s: State, request: Value, thread: nat, key: Key)
    requires Inv(s) && s.lock.Free?
    ensures Next(s, DeliverLock(request)).Some?
    ensures Next(s, PollStart(thread, key)).Some? <==> thread !in s.pollers
    ensures Next(s, CloseLock(key)).Some? <==> key in s.listeners
  {
  }

  /** Whoever holds the lock can go on until it is free: a delivery reaches every listener, and a close comes to its end. */
  lemma {:induction false} LockIsReleased(s: State) returns (steps: seq<Step>)
    requires Inv(s)
    ensures Run(s, steps).Some? && Run(s, steps).value.lock.Free? && Run(s, steps).value.pollers == s.pollers
    decreases if s.lock.Delivering? then |s.lock.pending| + 1 else if s.lock.Closing? then 2 else if s.lock.Erasing? then 1 else 0
  {
    if s.lock.Free? {
      steps := [];
    } else {
      var step := ReleasingStep(s);
      NextKeepsInv(s, step);
      var more := LockIsReleased(Next(s, step).value);
      steps := [step] + more;
      assert steps[1..] == more;
    }
  }

  lemma ReleasingStep(s: State) returns (step: Step)
    requires Inv(s) && !s.lock.Free?
    ensures Next(s, step).Some?
    ensures var s' := Next(s, step).value;
            && s'.pollers == s.pollers
            && match s.lock
               case Delivering(r, pending) =>
                 if pending == {} then s'.lock.Free? else s'.lock.Delivering? && |s'.lock.pending| < |pending|
               case Closing(_) => s'.lock.Erasing?
               case Erasing(_) => s'.lock.Free?
               case Free => false
  {
    match s.lock
    case Delivering(r, pending) =>
      if pending == {} {
        step := DeliverUnlock;
      } else {
        var q :| q in pending;
        assert q in s.listeners.Values;
        step := DeliverPush(q);
        assert pending == (pending - {q}) + {q};
      }
    case Closing(_) => step := CloseNoWaiters;
    case Erasing(_) => step := CloseErase;
  }

  /** A poller can move, unless it counts on messages that another thread has taken; the closing thread wakes those that may wait. */
  lemma PollersMove(s: State, t: nat)
    requires Inv(s) && t in s.pollers
    ensures var p := s.pollers[t];
            && p.q < |s.queues|
            && (p.HasQueue? ==> Next(s, PollLook(t)).Some?)
            && (!p.HasQueue? ==> (Next(s, PollPop(t)).Some? <==> s.queues[p.q].items != []))
            && (p.Blocked? ==> (Next(s, PollTimeout(t)).Some? <==> s.queues[p.q].items == []))
            && (s.lock.Closing? && !p.HasQueue? && s.listeners[s.lock.key] == p.q ==> Next(s, CloseNudge).Some?)
  {
    assert PollerOk(s, t);
    assert s.lock.Closing? ==> s.lock.key in s.listeners;
  }

  /** Two sessions poll, an event is delivered, and each of them gets it. */
  lemma SampleRun(r: Value)
    ensures var a, b := SessionKey("A"), SessionKey("B");
            var s := Run(INITIAL, [PollStart(1, a), PollStart(2, b)]
                                  + ([DeliverLock(r), DeliverPush(0), DeliverPush(1), DeliverUnlock]
                                     + [PollLook(2), PollPop(2), PollLook(1), PollPop(1)]));
            s.Some? && s.value.answers == [Answer(2, 1, 0, 1, [Request(r)]), Answer(1, 0, 0, 1, [Request(r)])]
  {
    var a, b := SessionKey("A"), SessionKey("B");
    var first, second := [PollStart(1, a), PollStart(2, b)], [DeliverLock(r), DeliverPush(0), DeliverPush(1), DeliverUnlock];
    var third := [PollLook(2), PollPop(2), PollLook(1), PollPop(1)];
    var s2, s6 := SampleBegun(a, b), SampleDelivered(a, b, r);
    SampleStart(a, b, s2);
    SampleDelivery(a, b, s2, s6, r);
    SamplePolls(s6, r);
    RunConcat(INITIAL, first, second + third);
    RunConcat(s2, second, third);
  }

  function SampleBegun(a: Key, b: Key): State {
    State(map[a := 0, b := 1], [Queue([], [], 0, None), Queue([], [], 0, None)], [], Free,
          map[1 := HasQueue(0, 0), 2 := HasQueue(1, 0)], [])
  }

  function SampleDelivered(a: Key, b: Key, r: Value): State {
    SampleBegun(a, b).(queues := [Queue([Request(r)], [], 0, None), Queue([Request(r)], [], 0, None)], log := [r])
  }

  lemma TwoSteps(s: State, a: Step, b: Step)
    requires Next(s, a).Some?
    ensures Run(s, [a, b]) == Next(Next(s, a).value, b)
  {
    assert [a, b][1..] == [b] && [b][1..] == [];
    var n := Next(Next(s, a).value, b);
    assert n.Some? ==> Run(n.value, []) == n;
  }

  lemma SampleStart(a: Key, b: Key, s: State)
    requires a == SessionKey("A") && b == SessionKey("B")
    requires s == SampleBegun(a, b)
    ensures Run(INITIAL, [PollStart(1, a), PollStart(2, b)]) == Some(s)
  {
    assert a != b by { assert "A"[0] != "B"[0]; }
    TwoSteps(INITIAL, PollStart(1, a), PollStart(2, b));
    var s1 := Next(INITIAL, PollStart(1, a)).value;
    assert s1 == State(map[a := 0], [Queue([], [], 0, None)], [], Free, map[1 := HasQueue(0, 0)], []);
    assert s1.queues + [Queue([], [], 0, None)] == s.queues;
  }

  lemma SampleDelivery(a: Key, b: Key, s: State, s': State, r: Value)
    requires a != b && s.listeners == map[a := 0, b := 1] && s.lock.Free? && s.log == []
    requires s.queues == [Queue([], [], 0, None), Queue([], [], 0, None)]
    requires s' == s.(queues := [Queue([Request(r)], [], 0, None), Queue([Request(r)], [], 0, None)], log := [r])
    ensures Run(s, [DeliverLock(r), DeliverPush(0), DeliverPush(1), DeliverUnlock]) == Some(s')
  {
    var l := s.listeners;
    assert l[a] == 0 && l[b] == 1;
    assert l.Values == {0, 1};
    var s1 := Next(s, DeliverLock(r)).value;
    assert s1 == s.(lock := Delivering(r, {0, 1}), log := [r]);
    var q := Queue([Request(r)], [], 0, None);
    assert [] + [Request(r)] == [Request(r)];
    var s2 := Next(s1, DeliverPush(0)).value;
    assert s2.queues == s.queues[0 := q] == [q, Queue([], [], 0, None)];
    assert s2.lock == Delivering(r, {1}) && s2.queues == [Queue([Request(r)], [], 0, None), Queue([], [], 0, None)];
    var s3 := Next(s2, DeliverPush(1)).value;
    assert s3.queues == s2.queues[1 := q] == [q, q];
    assert s3.lock == Delivering(r, {}) && s3.queues == s'.queues;
    TwoSteps(s, DeliverLock(r), DeliverPush(0));
    TwoSteps(s2, DeliverPush(1), DeliverUnlock);
    RunConcat(s, [DeliverLock(r), DeliverPush(0)], [DeliverPush(1), DeliverUnlock]);
    assert [DeliverLock(r), DeliverPush(0)] + [DeliverPush(1), DeliverUnlock] == [DeliverLock(r), DeliverPush(0), DeliverPush(1), DeliverUnlock];
  }

  lemma SamplePolls(s: State, r: Value)
    requires s.queues == [Queue([Request(r)], [], 0, None), Queue([Request(r)], [], 0, None)]
    requires s.pollers == map[1 := HasQueue(0, 0), 2 := HasQueue(1, 0)] && s.answers == []
    ensures var n := Run(s, [PollLook(2), PollPop(2), PollLook(1), PollPop(1)]);
            n.Some? && n.value.answers == [Answer(2, 1, 0, 1, [Request(r)]), Answer(1, 0, 0, 1, [Request(r)])]
  {
    TwoSteps(s, PollLook(2), PollPop(2));
    var s1 := Next(s, PollLook(2)).value;
    assert s1.pollers[2] == Fetching(1, 0, 1, []);
    var m := Request(r);
    assert [m][1..] == [] && [] + [m] == [m];
    var s2 := Next(s1, PollPop(2)).value;
    assert s2 == Answered(PoppedBy(s1, 1, 2), 2, 1, 0, [] + [m]);
    assert |[] + [Pop(2, m)]| == 1;
    assert s2.answers == [] + [Answer(2, 1, 0, 1, [m])];
    assert s2.answers == [Answer(2, 1, 0, 1, [Request(r)])];
    TwoSteps(s2, PollLook(1), PollPop(1));
    var s3 := Next(s2, PollLook(1)).value;
    assert s3.pollers[1] == Fetching(0, 0, 1, []);
    var s4 := Next(s3, PollPop(1)).value;
    assert s4 == Answered(PoppedBy(s3, 0, 1), 1, 0, 0, [] + [m]);
    assert s4.answers == s2.answers + [Answer(1, 0, 0, 1, [m])];
    RunConcat(s, [PollLook(2), PollPop(2)], [PollLook(1), PollPop(1)]);
    assert [PollLook(2), PollPop(2)] + [PollLook(1), PollPop(1)] == [PollLook(2), PollPop(2), PollLook(1), PollPop(1)];
  }
}
