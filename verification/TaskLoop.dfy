/**
 MyThreadQueue, and the hand-off of closures to a loop thread: producers push and then signal, the loop's
 callback clears the signal and drains the queue. Each lock-protected step is one transition.
 */
module TaskLoop {
  import opened Sequences

  class MyThreadQueue<T> {
    var queue: seq<T>

    constructor ()
      ensures queue == []
    {
      queue := [];
    }

    method PushBack(t: T)
      modifies this
      ensures queue == old(queue) + [t]
    {
      queue := queue + [t];
    }

    method PushFront(t: T)
      modifies this
      ensures queue == [t] + old(queue)
    {
      queue := [t] + queue;
    }

    method PushBackAll(ts: seq<T>)
      modifies this
      ensures queue == old(queue) + ts
    {
      for i := 0 to |ts|
        invariant queue == old(queue) + ts[..i]
      {
        queue := queue + [ts[i]];
      }
    }

    /** One at a time, each in front of the one before: a batch arrives in reverse. */
    method PushFrontAll(ts: seq<T>)
      modifies this
      ensures |queue| == |ts| + |old(queue)| && queue[|ts|..] == old(queue)
      ensures forall i | 0 <= i < |ts| :: queue[i] == ts[|ts| - 1 - i]
    {
      for n := 0 to |ts|
        invariant |queue| == n + |old(queue)| && queue[n..] == old(queue)
        invariant forall i | 0 <= i < n :: queue[i] == ts[n - 1 - i]
      {
        queue := [ts[n]] + queue;
      }
    }

    /** popFront with a wait of 0: the oldest element, or false at once. */
    method PopFront() returns (t: Option<T>)
      modifies this
      ensures if old(queue) == [] then t == None && queue == []
              else t == Some(old(queue)[0]) && queue == old(queue)[1..]
    {
      if queue == [] {
        return None;
      }
      t := Some(queue[0]);
      queue := queue[1..];
    }
  }

  // ------------------------------------------------------------------------------------------
  // The hand-off

  /**
   A closure, or an empty std::function, which the drain loop takes for the end of its work. The queue is public;
   RunInThreadOrImmediate wraps what it queues and so never queues an empty one.
   */
  datatype Task = Closure(id: nat) | Empty

  /**
   The loop thread is between callbacks or in the drain loop; `signalling` counts producers between push
   and signal.
   */
  datatype State = State(queue: seq<Task>, pending: bool, draining: bool, signalling: nat, ran: seq<Task>)

  const IDLE := State([], false, false, 0, [])

  datatype Event = Push(t: Task) | Signal | Start | Pop

  predicate Enabled(s: State, e: Event) {
    match e
    case Push(_) => true
    case Signal => s.signalling > 0
    case Start => s.pending && !s.draining
    case Pop => s.draining
  }

  /** Start clears the signal before the first pop. A pop that yields nothing, or an empty task, ends the callback. */
  function Step(s: State, e: Event): State
    requires Enabled(s, e)
  {
    match e
    case Push(t) => s.(queue := s.queue + [t], signalling := s.signalling + 1)
    case Signal => s.(pending := true, signalling := s.signalling - 1)
    case Start => s.(pending := false, draining := true)
    case Pop =>
      if s.queue == [] then s.(draining := false)
      else if s.queue[0].Empty? then s.(queue := s.queue[1..], draining := false)
      else s.(queue := s.queue[1..], ran := s.ran + [s.queue[0]])
  }

  /** Every event of the run is enabled where it happens. */
  ghost predicate Run(s: State, es: seq<Event>)
    decreases |es|
  {
    es == [] || (Enabled(s, es[0]) && Run(Step(s, es[0]), es[1..]))
  }

  ghost function After(s: State, es: seq<Event>): State
    requires Run(s, es)
    decreases |es|
  {
    if es == [] then s else After(Step(s, es[0]), es[1..])
  }

  function Pushed(es: seq<Event>): seq<Task> {
    if es == [] then [] else (if es[0].Push? then [es[0].t] else []) + Pushed(es[1..])
  }

  predicate NoEmptyTask(ts: seq<Task>) {
    forall t | t in ts :: t.Closure?
  }

  /** A waiting task has a wake-up on its way. */
  predicate Covered(s: State) {
    s.queue != [] ==> s.pending || s.draining || s.signalling > 0
  }

  lemma StepKeepsCovered(s: State, e: Event)
    requires Enabled(s, e) && Covered(s) && NoEmptyTask(s.queue)
    ensures Covered(Step(s, e))
  {
    assert s.queue != [] ==> s.queue[0] in s.queue;
  }

  /** In every interleaving: a wake-up for what waits, and what ran and waits is what was pushed, in order. */
  lemma {:induction false} NoLostTask(s: State, es: seq<Event>)
    requires Run(s, es) && Covered(s) && NoEmptyTask(s.queue) && NoEmptyTask(Pushed(es))
    ensures var end := After(s, es);
            Covered(end) && NoEmptyTask(end.queue) && end.ran + end.queue == s.ran + s.queue + Pushed(es)
    decreases |es|
  {
    if es == [] {
      assert s.ran + s.queue + [] == s.ran + s.queue;
    } else {
      var e, s', rest := es[0], Step(s, es[0]), Pushed(es[1..]);
      var added := if e.Push? then [e.t] else [];
      assert Pushed(es) == added + rest;
      StepKeepsCovered(s, e);
      StepKeepsTasks(s, e);
      NoLostTask(s', es[1..]);
      PlusAssoc(s.ran + s.queue, added, rest);
    }
  }

  lemma StepKeepsTasks(s: State, e: Event)
    requires Enabled(s, e) && NoEmptyTask(s.queue) && (e.Push? ==> e.t.Closure?)
    ensures NoEmptyTask(Step(s, e).queue)
    ensures Step(s, e).ran + Step(s, e).queue == s.ran + s.queue + if e.Push? then [e.t] else []
  {
    if e.Push? {
      PlusAssoc(s.ran, s.queue, [e.t]);
    } else if e.Pop? && s.queue != [] {
      assert s.queue[0] in s.queue;
      PlusAssoc(s.ran, [s.queue[0]], s.queue[1..]);
      assert s.queue == [s.queue[0]] + s.queue[1..];
    }
  }

  /** Once the pushes are over, each step of any thread brings the end of the work nearer. */
  function Remaining(s: State): nat {
    3 * s.signalling + (if s.pending then 2 else 0) + (if s.draining then 1 else 0) + |s.queue|
  }

  lemma WorkShrinks(s: State, e: Event)
    requires Enabled(s, e) && !e.Push?
    ensures Remaining(Step(s, e)) < Remaining(s)
  {
  }

  lemma {:induction false} BoundedWork(s: State, es: seq<Event>)
    requires Run(s, es) && Pushed(es) == []
    ensures |es| + Remaining(After(s, es)) <= Remaining(s)
    decreases |es|
  {
    if es != [] {
      assert !es[0].Push?;
      WorkShrinks(s, es[0]);
      BoundedWork(Step(s, es[0]), es[1..]);
    }
  }

  /**
   From the idle loop, after any pushes in any interleaving: when no step but a push is left to any thread,
   every pushed task has run exactly once and in the order of the queue.
   */
  lemma QuiescentMeansAllRan(es: seq<Event>)
    requires Run(IDLE, es) && NoEmptyTask(Pushed(es))
    requires forall e: Event | !e.Push? :: !Enabled(After(IDLE, es), e)
    ensures After(IDLE, es).ran == Pushed(es)
  {
    NoLostTask(IDLE, es);
    var end := After(IDLE, es);
    assert !Enabled(end, Signal) && !Enabled(end, Start) && !Enabled(end, Pop);
    assert [] + [] + Pushed(es) == Pushed(es) && end.ran + [] == end.ran;
  }

  /** An empty closure ends the drain: the closure behind it stays, and nothing is left that would wake the loop. */
  lemma EmptyTaskStrands(id: nat)
    ensures var es := [Push(Empty), Push(Closure(id)), Signal, Signal, Start, Pop];
            Run(IDLE, es) && After(IDLE, es).queue == [Closure(id)] && !Covered(After(IDLE, es))
  {
    var s1 := Step(IDLE, Push(Empty));
    var s2 := Step(s1, Push(Closure(id)));
    var s3 := Step(s2, Signal);
    var s4 := Step(s3, Signal);
    var s5 := Step(s4, Start);
    var s6 := Step(s5, Pop);
    assert s6.queue == [Closure(id)];
    RunCons(s5, Pop, []);
    RunCons(s4, Start, [Pop]);
    RunCons(s3, Signal, [Start, Pop]);
    RunCons(s2, Signal, [Signal, Start, Pop]);
    RunCons(s1, Push(Closure(id)), [Signal, Signal, Start, Pop]);
    RunCons(IDLE, Push(Empty), [Push(Closure(id)), Signal, Signal, Start, Pop]);
    assert [Push(Empty)] + [Push(Closure(id)), Signal, Signal, Start, Pop]
        == [Push(Empty), Push(Closure(id)), Signal, Signal, Start, Pop];
  }

  lemma RunCons(s: State, e: Event, es: seq<Event>)
    requires Enabled(s, e) && Run(Step(s, e), es)
    ensures Run(s, [e] + es) && After(s, [e] + es) == After(Step(s, e), es)
  {
    assert ([e] + es)[1..] == es;
  }

  // ------------------------------------------------------------------------------------------
  // A drain that nobody interrupts

  /** The closures up to the first empty one. */
  function Leading(q: seq<Task>): (r: seq<Task>)
    ensures r <= q && NoEmptyTask(r) && (r != q ==> q[|r|].Empty?)
  {
    if q == [] || q[0].Empty? then [] else [q[0]] + Leading(q[1..])
  }

  /** What is behind the first empty closure. */
  function Behind(q: seq<Task>): (r: seq<Task>)
    ensures q == if Leading(q) == q then Leading(q) else Leading(q) + [Empty] + r
  {
    if q == [] then []
    else if q[0].Empty? then q[1..]
    else
      assert q == [q[0]] + q[1..];
      Behind(q[1..])
  }

  function Pops(n: nat): (es: seq<Event>)
    ensures |es| == n
  {
    if n == 0 then [] else [Pop] + Pops(n - 1)
  }

  /** A drain that nobody interrupts takes its callback from the first pop to its end in |Leading| + 1 pops. */
  lemma {:induction false} DrainIsPops(s: State)
    requires s.draining
    ensures var es := Pops(|Leading(s.queue)| + 1);
            Run(s, es) &&
            After(s, es) == s.(queue := Behind(s.queue), draining := false, ran := s.ran + Leading(s.queue))
    decreases |s.queue|
  {
    var s' := Step(s, Pop);
    if s.queue == [] || s.queue[0].Empty? {
      RunCons(s, Pop, []);
      assert Pops(1) == [Pop] + [] && s.ran + [] == s.ran;
    } else {
      DrainIsPops(s');
      RunCons(s, Pop, Pops(|Leading(s'.queue)| + 1));
      PlusAssoc(s.ran, [s.queue[0]], Leading(s'.queue));
    }
  }

  // ------------------------------------------------------------------------------------------
  // Which pushes are always covered

  predicate ClosuresButLast(ts: seq<Task>) {
    forall i | 0 <= i < |ts| - 1 :: ts[i].Closure?
  }

  lemma {:induction false} StaysCovered(s: State, es: seq<Event>)
    requires Run(s, es) && Covered(s) && ClosuresButLast(s.queue + Pushed(es))
    ensures Covered(After(s, es))
    decreases |es|
  {
    if es != [] {
      var e, s', rest := es[0], Step(s, es[0]), Pushed(es[1..]);
      var added := if e.Push? then [e.t] else [];
      assert Pushed(es) == added + rest;
      PlusAssoc(s.queue, added, rest);
      var all := s.queue + Pushed(es);
      if e.Pop? && s.queue != [] {
        assert s'.queue + rest == all[1..] && s.queue[0] == all[0];
        assert forall i | 0 <= i < |all| - 2 :: all[1..][i] == all[i + 1];
      } else {
        assert s'.queue + rest == all;
      }
      StaysCovered(s', es[1..]);
    }
  }

  function Pushes(ts: seq<Task>): seq<Event> {
    if ts == [] then [] else [Push(ts[0])] + Pushes(ts[1..])
  }

  function Signals(n: nat): seq<Event> {
    if n == 0 then [] else [Signal] + Signals(n - 1)
  }

  lemma {:induction false} RunAppend(s: State, a: seq<Event>, b: seq<Event>)
    requires Run(s, a) && Run(After(s, a), b)
    ensures Run(s, a + b) && After(s, a + b) == After(After(s, a), b)
    decreases |a|
  {
    if a == [] {
      assert a + b == b;
    } else {
      RunAppend(Step(s, a[0]), a[1..], b);
      RunCons(s, a[0], a[1..] + b);
      assert [a[0]] + (a[1..] + b) == a + b;
    }
  }

  lemma {:induction false} PushedAppend(a: seq<Event>, b: seq<Event>)
    ensures Pushed(a + b) == Pushed(a) + Pushed(b)
  {
    if a == [] {
      assert a + b == b;
    } else {
      assert (a + b)[0] == a[0] && (a + b)[1..] == a[1..] + b;
      PushedAppend(a[1..], b);
    }
  }

  lemma {:induction false} PushAll(s: State, ts: seq<Task>)
    ensures Run(s, Pushes(ts)) && Pushed(Pushes(ts)) == ts
    ensures After(s, Pushes(ts)) == s.(queue := s.queue + ts, signalling := s.signalling + |ts|)
    decreases |ts|
  {
    if ts == [] {
      assert s.queue + [] == s.queue;
    } else {
      PushAll(Step(s, Push(ts[0])), ts[1..]);
      RunCons(s, Push(ts[0]), Pushes(ts[1..]));
      PlusAssoc(s.queue, [ts[0]], ts[1..]);
      assert [ts[0]] + ts[1..] == ts && Pushes(ts)[1..] == Pushes(ts[1..]);
    }
  }

  lemma {:induction false} SignalAll(s: State, n: nat)
    requires 0 < n <= s.signalling
    ensures Run(s, Signals(n)) && Pushed(Signals(n)) == []
    ensures After(s, Signals(n)) == s.(pending := true, signalling := s.signalling - n)
    decreases n
  {
    var s' := Step(s, Signal);
    if n > 1 {
      SignalAll(s', n - 1);
    }
    RunCons(s, Signal, Signals(n - 1));
    assert Signals(n)[1..] == Signals(n - 1);
  }

  lemma {:induction false} PopsPushNothing(n: nat)
    ensures Pushed(Pops(n)) == []
  {
    if n > 0 {
      PopsPushNothing(n - 1);
      assert Pops(n)[1..] == Pops(n - 1);
    }
  }

  /** All are pushed, all are signalled, and one drain follows: what is behind the first empty closure is stranded. */
  lemma StrandingRun(ts: seq<Task>) returns (es: seq<Event>)
    requires !ClosuresButLast(ts)
    ensures Run(IDLE, es) && Pushed(es) == ts && !Covered(After(IDLE, es))
  {
    PushAll(IDLE, ts);
    var s1 := After(IDLE, Pushes(ts));
    assert [] + ts == ts;
    SignalAll(s1, |ts|);
    var s2 := After(s1, Signals(|ts|));
    var drain := OneDrain(s2);
    BehindNotEmpty(ts);
    hide Run, After, Pushed, Pushes, Signals, Behind;
    RunAppend(s1, Signals(|ts|), drain);
    RunAppend(IDLE, Pushes(ts), Signals(|ts|) + drain);
    PushedAppend(Signals(|ts|), drain);
    PushedAppend(Pushes(ts), Signals(|ts|) + drain);
    es := Pushes(ts) + (Signals(|ts|) + drain);
    assert ts + ([] + []) == ts;
  }

  lemma OneDrain(s: State) returns (es: seq<Event>)
    requires s.pending && !s.draining
    ensures Run(s, es) && Pushed(es) == []
    ensures After(s, es) == s.(queue := Behind(s.queue), pending := false, ran := s.ran + Leading(s.queue))
  {
    var pops := Pops(|Leading(s.queue)| + 1);
    es := [Start] + pops;
    DrainIsPops(Step(s, Start));
    PopsPushNothing(|Leading(s.queue)| + 1);
    RunCons(s, Start, pops);
    assert es[1..] == pops;
  }

  lemma BehindNotEmpty(ts: seq<Task>)
    requires !ClosuresButLast(ts)
    ensures Behind(ts) != []
  {
    var i :| 0 <= i < |ts| - 1 && ts[i].Empty?;
    LeadingStops(ts, i);
  }

  lemma {:induction false} LeadingStops(ts: seq<Task>, i: nat)
    requires i < |ts| && ts[i].Empty?
    ensures |Leading(ts)| <= i
  {
    if ts[0].Closure? {
      LeadingStops(ts[1..], i - 1);
    }
  }

  /**
   From the idle loop, for any pushes at all: what waits has a wake-up on its way in every interleaving of these
   pushes with signals and drains, if and only if none of them but the last is an empty closure.
   */
  lemma {:induction false} CoveredIff(ts: seq<Task>)
    ensures (forall es | Run(IDLE, es) && Pushed(es) == ts :: Covered(After(IDLE, es)))
       <==> forall i | 0 <= i < |ts| - 1 :: ts[i].Closure?
  {
    if ClosuresButLast(ts) {
      forall es | Run(IDLE, es) && Pushed(es) == ts
        ensures Covered(After(IDLE, es))
      {
        assert [] + ts == ts;
        StaysCovered(IDLE, es);
      }
    } else {
      var es := StrandingRun(ts);
    }
  }

  // ------------------------------------------------------------------------------------------
  // The loop object, seen from one thread

  class MyLoop {
    const queue: MyThreadQueue<Task>
    var signalled: bool
    var exit: bool
    var left: bool
    var ran: seq<Task>

    constructor ()
      ensures fresh(queue) && queue.queue == [] && !signalled && !exit && !left && ran == []
    {
      queue := new MyThreadQueue();
      signalled, exit, left, ran := false, false, false, [];
    }

    /** On the loop thread the closure runs now, ahead of the queue; elsewhere it is queued and signalled. */
    method RunInThreadOrImmediate(task: Task, onLoopThread: bool)
      requires task.Closure?
      modifies this`ran, this`signalled, queue
      ensures onLoopThread ==>
                ran == old(ran) + [task] && queue.queue == old(queue.queue) && signalled == old(signalled)
      ensures !onLoopThread ==> ran == old(ran) && queue.queue == old(queue.queue) + [task] && signalled
    {
      if onLoopThread {
        ran := ran + [task];
      } else {
        queue.PushBack(task);
        signalled := true;
      }
    }

    method Stop()
      modifies this`exit, this`signalled
      ensures exit && signalled
    {
      exit := true;
      signalled := true;
    }

    /** The queue watcher's callback with nobody pushing meanwhile: closures in front of an empty one run, in order. */
    method OnQueueSignal()
      modifies this`ran, this`signalled, this`left, queue
      ensures ran == old(ran) + Leading(old(queue.queue)) && !signalled
      ensures queue.queue == Behind(old(queue.queue))
      ensures left == (old(left) || exit)
    {
      signalled := false;
      while true
        invariant ran + Leading(queue.queue) == old(ran) + Leading(old(queue.queue))
        invariant Behind(queue.queue) == Behind(old(queue.queue))
        invariant !signalled && left == old(left)
        decreases |queue.queue|
      {
        var f := queue.PopFront();
        if f.None? || f.value.Empty? {
          break;
        }
        PlusAssoc(ran, [f.value], Leading(queue.queue));
        ran := ran + [f.value];
      }
      if exit {
        left := true;
      }
    }
  }
}
