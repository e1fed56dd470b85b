/**
 * The `process.nextTick` shim: callbacks queue up behind each other, may enqueue more while they run, and may throw.
 *
 * A callback is foreign code, so `drainQueue` is modelled in the pieces between callbacks: a timer starts the loop,
 * which stops when it starts a callback; the callback then enqueues what it likes and returns into the loop or throws
 * out of it.
 */
module NextTick {
  import opened JsStrings

  type Item = nat

  /** The shim's variables, the frame of a running drain, the pending timers, and two histories. */
  datatype Ticks = Ticks(
    queue: seq<Item>, draining: bool, currentQueue: Option<seq<Item>>, queueIndex: int,
    running: bool, len: nat,
    drainTimers: nat, cleanTimers: nat,
    enqueued: seq<Item>, started: seq<Item>)

  const IDLE := Ticks([], false, None, -1, false, 0, 0, 0, [], [])

  datatype Event = Enqueue(item: Item) | DrainTimer | CleanTimer | Returns | Throws

  predicate Enabled(s: Ticks, e: Event) {
    match e
    case Enqueue(_) => true
    case DrainTimer => !s.running && s.drainTimers > 0
    case CleanTimer => !s.running && s.cleanTimers > 0
    case Returns => s.running
    case Throws => s.running
  }

  /** Enqueued and not yet started, in order. */
  function Pending(s: Ticks): seq<Item> {
    (if s.currentQueue.Some? && -1 <= s.queueIndex < |s.currentQueue.value|
     then s.currentQueue.value[s.queueIndex + 1..]
     else []) + s.queue
  }

  predicate Draining(s: Ticks) {
    && s.currentQueue.Some? && 0 <= s.queueIndex < |s.currentQueue.value|
    && s.cleanTimers == 1 && s.drainTimers == 0
    && (s.running ==> s.len == |s.currentQueue.value|)
  }

  predicate AtRest(s: Ticks) {
    && !s.running && s.currentQueue == None && s.queueIndex == -1 && s.cleanTimers == 0
    && s.drainTimers == if s.queue == [] then 0 else 1
  }

  predicate Inv(s: Ticks) {
    && s.enqueued == s.started + Pending(s)
    && (if s.draining then Draining(s) else AtRest(s))
  }

  // ---------------------------------------------------------------- the steps

  function Push(s: Ticks, item: Item): Ticks {
    var s' := s.(queue := s.queue + [item], enqueued := s.enqueued + [item]);
    if |s'.queue| == 1 && !s'.draining then s'.(drainTimers := s.drainTimers + 1) else s'
  }

  /** The end of `drainQueue`: nothing current, and the clean-up timer of this drain is cleared. */
  function Finish(s: Ticks): Ticks {
    s.(currentQueue := None, draining := false, cleanTimers := if s.cleanTimers > 0 then s.cleanTimers - 1 else 0)
  }

  function Start(s: Ticks, i: nat): Ticks
    requires s.currentQueue.Some? && i < |s.currentQueue.value|
  {
    s.(queueIndex := i, running := true, started := s.started + [s.currentQueue.value[i]])
  }

  /** The head of the inner loop: start the next callback, or go back to the outer loop. */
  function NextItem(s: Ticks): Ticks
    requires s.currentQueue.Some? && s.queueIndex >= -1 && s.len <= |s.currentQueue.value|
  {
    if s.queueIndex + 1 < s.len then Start(s, s.queueIndex + 1)
    else if s.queue == [] then Finish(s.(queueIndex := -1, len := 0))
    else Start(s.(len := |s.queue|, currentQueue := Some(s.queue), queue := []), 0)
  }

  /** The head of the outer loop, `len` having just been computed. */
  function NextBatch(s: Ticks): Ticks
    requires s.queueIndex >= -1 && s.len == |s.queue|
  {
    if s.len == 0 then Finish(s) else NextItem(s.(currentQueue := Some(s.queue), queue := []))
  }

  function Drain(s: Ticks): Ticks
    requires s.queueIndex >= -1
  {
    if s.draining then s
    else NextBatch(s.(cleanTimers := s.cleanTimers + 1, draining := true, len := |s.queue|))
  }

  function CleanUp(s: Ticks): Ticks
    requires s.queueIndex >= -1
  {
    if !s.draining || s.currentQueue.None? then s
    else
      var current := s.currentQueue.value;
      var s' := if current != [] then s.(draining := false, queue := current + s.queue)
                else s.(draining := false, queueIndex := -1);
      if s'.queue != [] then Drain(s') else s'
  }

  function Do(s: Ticks, e: Event): Ticks
    requires Inv(s) && Enabled(s, e)
  {
    match e
    case Enqueue(item) => Push(s, item)
    case DrainTimer => Drain(s.(drainTimers := s.drainTimers - 1))
    case CleanTimer => CleanUp(s.(cleanTimers := s.cleanTimers - 1))
    case Returns => NextItem(s.(running := false))
    case Throws => s.(running := false)
  }

  // ---------------------------------------------------------------- preservation

  /** Inside a drain, before the next callback is chosen. */
  predicate Choosing(s: Ticks) {
    && !s.running && s.draining && s.currentQueue.Some? && s.len == |s.currentQueue.value|
    && -1 <= s.queueIndex < s.len && s.cleanTimers == 1 && s.drainTimers == 0
    && s.enqueued == s.started + Pending(s)
  }

  /** Starting a callback moves the first pending item to the started ones. */
  lemma StartTakesFirst(s: Ticks, i: nat)
    requires s.currentQueue.Some? && i < |s.currentQueue.value|
    ensures s.currentQueue.value[i..] + s.queue == [s.currentQueue.value[i]] + Pending(Start(s, i))
    ensures s.started + (s.currentQueue.value[i..] + s.queue) == Start(s, i).started + Pending(Start(s, i))
  {
    var current := s.currentQueue.value;
    assert current[i..] == [current[i]] + current[i + 1..];
  }

  /** The loop starts exactly the next pending callback, or ends because there is none. */
  lemma NextItemStarts(s: Ticks)
    requires Choosing(s)
    ensures Inv(NextItem(s)) && NextItem(s).enqueued == s.enqueued
    ensures Pending(s) != [] ==> NextItem(s).running && NextItem(s).started == s.started + [Pending(s)[0]]
    ensures Pending(s) == [] ==> !NextItem(s).draining && NextItem(s).started == s.started
  {
    var i := s.queueIndex + 1;
    var current := s.currentQueue.value;
    if i < s.len {
      StartTakesFirst(s, i);
    } else {
      assert current[i..] == [] && Pending(s) == s.queue;
      if s.queue != [] {
        StartTakesFirst(s.(len := |s.queue|, currentQueue := Some(s.queue), queue := []), 0);
      }
    }
  }

  lemma DrainStarts(s: Ticks)
    requires !s.draining && !s.running && s.cleanTimers == 0 && s.drainTimers == 0 && s.queue != []
    requires -1 <= s.queueIndex < |s.queue|
    requires s.enqueued == s.started + s.queue[s.queueIndex + 1..]
    ensures var rest := s.queue[s.queueIndex + 1..];
            && Inv(Drain(s)) && Drain(s).enqueued == s.enqueued
            && (rest != [] ==> Drain(s).running && Drain(s).started == s.started + [rest[0]])
            && (rest == [] ==> !Drain(s).draining && Drain(s).started == s.started)
  {
    var s' := s.(cleanTimers := 1, draining := true, len := |s.queue|, currentQueue := Some(s.queue), queue := []);
    assert Pending(s') == s.queue[s.queueIndex + 1..] + [];
    NextItemStarts(s');
  }

  lemma PushKeeps(s: Ticks, item: Item)
    requires Inv(s)
    ensures Inv(Push(s, item))
  {
    assert Pending(Push(s, item)) == Pending(s) + [item];
  }

  lemma ThrowKeeps(s: Ticks)
    requires Inv(s) && s.running
    ensures Inv(s.(running := false))
  {
  }

  lemma ReturnStarts(s: Ticks)
    requires Inv(s) && s.running
    ensures var s' := NextItem(s.(running := false));
            && Inv(s') && s'.enqueued == s.enqueued
            && (Pending(s) != [] ==> s'.running && s'.started == s.started + [Pending(s)[0]])
            && (Pending(s) == [] ==> !s'.draining && s'.started == s.started)
  {
    NextItemStarts(s.(running := false));
  }

  lemma RestStarts(s: Ticks)
    requires Inv(s) && Enabled(s, DrainTimer)
    ensures var s' := Drain(s.(drainTimers := s.drainTimers - 1));
            && Inv(s') && s'.enqueued == s.enqueued && Pending(s) != []
            && s'.running && s'.started == s.started + [Pending(s)[0]]
  {
    assert Pending(s) == s.queue == s.queue[0..];
    DrainStarts(s.(drainTimers := 0));
  }

  lemma CleanStarts(s: Ticks)
    requires Inv(s) && Enabled(s, CleanTimer)
    ensures Inv(Do(s, CleanTimer)) && Do(s, CleanTimer).enqueued == s.enqueued
    ensures Pending(s) != [] ==> Do(s, CleanTimer).running && Do(s, CleanTimer).started == s.started + [Pending(s)[0]]
    ensures Pending(s) == [] ==> !Do(s, CleanTimer).draining && Do(s, CleanTimer).started == s.started
  {
    var current := s.currentQueue.value;
    var s' := s.(cleanTimers := 0, draining := false, queue := current + s.queue);
    assert s'.queue[s'.queueIndex + 1..] == Pending(s);
    DrainStarts(s');
  }

  lemma StepKeeps(s: Ticks, e: Event)
    requires Inv(s) && Enabled(s, e)
    ensures Inv(Do(s, e))
    ensures s.started <= Do(s, e).started && |Do(s, e).started| <= |s.started| + 1
    ensures Do(s, e).enqueued == s.enqueued + (if e.Enqueue? then [e.item] else [])
  {
    hide Pending, Drain, CleanUp, NextItem;
    match e
    case Enqueue(item) => PushKeeps(s, item);
    case DrainTimer => RestStarts(s);
    case CleanTimer => CleanStarts(s);
    case Returns => ReturnStarts(s);
    case Throws => ThrowKeeps(s);
  }

  // ---------------------------------------------------------------- theorems

  predicate Legal(s: Ticks, events: seq<Event>)
    requires Inv(s)
    decreases |events|
  {
    events == [] || (Enabled(s, events[0]) && (StepKeeps(s, events[0]); Legal(Do(s, events[0]), events[1..])))
  }

  function Run(s: Ticks, events: seq<Event>): (r: Ticks)
    requires Inv(s) && Legal(s, events)
    ensures Inv(r)
    decreases |events|
  {
    if events == [] then s
    else
      StepKeeps(s, events[0]);
      Run(Do(s, events[0]), events[1..])
  }

  /** The callbacks enqueued by a history. */
  function Enqueued(events: seq<Event>): seq<Item> {
    if events == [] then []
    else (if events[0].Enqueue? then [events[0].item] else []) + Enqueued(events[1..])
  }

  lemma {:induction false} RunEnqueues(s: Ticks, events: seq<Event>)
    requires Inv(s) && Legal(s, events)
    ensures Run(s, events).enqueued == s.enqueued + Enqueued(events)
    decreases |events|
  {
    hide Do, Inv;
    if events != [] {
      StepKeeps(s, events[0]);
      RunEnqueues(Do(s, events[0]), events[1..]);
    }
  }

  /**
   * Over every history of enqueues, timers, returns and throws: what has started is a prefix of what was enqueued, so
   * callbacks start in order and each at most once; and while one is unstarted, a drain is running or exactly one
   * timer is pending.
   */
  lemma StartsInOrder(events: seq<Event>)
    requires Legal(IDLE, events)
    ensures var s := Run(IDLE, events);
            && s.started <= Enqueued(events)
            && Enqueued(events) == s.started + Pending(s)
            && (Pending(s) != [] ==> s.running || s.drainTimers + s.cleanTimers == 1)
  {
    RunEnqueues(IDLE, events);
    assert [] + Enqueued(events) == Enqueued(events);
  }

  /** Nothing is lost to a throw: when no callback runs and one is pending, the pending timer starts the next one. */
  lemma TimerResumes(events: seq<Event>)
    requires Legal(IDLE, events)
    requires !Run(IDLE, events).running && Pending(Run(IDLE, events)) != []
    ensures var s := Run(IDLE, events);
            var e := if s.draining then CleanTimer else DrainTimer;
            && Enabled(s, e) && !Enabled(s, if s.draining then DrainTimer else CleanTimer)
            && Do(s, e).started == s.started + [Pending(s)[0]] && Do(s, e).running
  {
    var s := Run(IDLE, events);
    if s.draining {
      CleanStarts(s);
    } else {
      RestStarts(s);
    }
  }

  /** A callback that returns hands over to the next pending one at once, or ends the drain. */
  lemma ReturnContinues(events: seq<Event>)
    requires Legal(IDLE, events) && Run(IDLE, events).running
    ensures var s := Run(IDLE, events);
            if Pending(s) == [] then AtRest(Do(s, Returns)) && Do(s, Returns).queue == []
            else Do(s, Returns).running && Do(s, Returns).started == s.started + [Pending(s)[0]]
  {
    var s := Run(IDLE, events);
    ReturnStarts(s);
  }

  // ---------------------------------------------------------------- the shim itself

  /** The module variables of the shim and the pieces of its functions. */
  class Process {
    var queue: seq<Item>
    var draining: bool
    var currentQueue: Option<seq<Item>>
    var queueIndex: int
    var running: bool
    var len: nat
    var drainTimers: nat
    var cleanTimers: nat
    ghost var enqueued: seq<Item>
    ghost var started: seq<Item>

    ghost function Abs(): Ticks
      reads this
    {
      Ticks(queue, draining, currentQueue, queueIndex, running, len, drainTimers, cleanTimers, enqueued, started)
    }

    constructor ()
      ensures Abs() == IDLE && Inv(Abs())
    {
      queue, draining, currentQueue, queueIndex, running := [], false, None, -1, false;
      len, drainTimers, cleanTimers, enqueued, started := 0, 0, 0, [], [];
    }

    method NextTick(item: Item)
      requires Inv(Abs())
      modifies this
      ensures Inv(Abs()) && Abs() == Do(old(Abs()), Enqueue(item))
    {
      StepKeeps(Abs(), Enqueue(item));
      queue := queue + [item];
      enqueued := enqueued + [item];
      if |queue| == 1 && !draining {
        drainTimers := drainTimers + 1;
      }
    }

    /** The loops of `drainQueue`, from the increment of `queueIndex` to the next callback or the end. */
    method Loop()
      requires currentQueue.Some? && queueIndex >= -1 && len <= |currentQueue.value|
      modifies this
      ensures Abs() == NextItem(old(Abs()))
    {
      ghost var s := Abs();
      ghost var first := s.(queueIndex := s.queueIndex + 1);
      ghost var second := s.(queueIndex := 0, len := |s.queue|, currentQueue := Some(s.queue), queue := []);
      queueIndex := queueIndex + 1;
      while queueIndex >= len
        invariant Abs() == first || (first.queueIndex >= first.len && s.queue != [] && Abs() == second)
        decreases |queue|, len, if queueIndex >= len then 1 else 0
      {
        queueIndex := -1;
        len := |queue|;
        if len == 0 {
          currentQueue := None;
          draining := false;
          cleanTimers := if cleanTimers > 0 then cleanTimers - 1 else 0;
          return;
        }
        currentQueue := Some(queue);
        queue := [];
        queueIndex := queueIndex + 1;
      }
      running := true;
      started := started + [currentQueue.value[queueIndex]];
    }

    method DrainQueue()
      requires queueIndex >= -1
      modifies this
      ensures Abs() == Drain(old(Abs()))
    {
      if draining {
        return;
      }
      cleanTimers := cleanTimers + 1;
      draining := true;
      len := |queue|;
      if len == 0 {
        currentQueue := None;
        draining := false;
        cleanTimers := cleanTimers - 1;
        return;
      }
      currentQueue := Some(queue);
      queue := [];
      Loop();
    }

    method CleanUpNextTick()
      requires queueIndex >= -1
      modifies this
      ensures Abs() == CleanUp(old(Abs()))
    {
      if !draining || currentQueue.None? {
        return;
      }
      draining := false;
      if currentQueue.value != [] {
        queue := currentQueue.value + queue;
      } else {
        queueIndex := -1;
      }
      if queue != [] {
        DrainQueue();
      }
    }

    method FireDrainTimer()
      requires Inv(Abs()) && Enabled(Abs(), DrainTimer)
      modifies this
      ensures Inv(Abs()) && Abs() == Do(old(Abs()), DrainTimer)
    {
      hide Drain, Pending;
      StepKeeps(Abs(), DrainTimer);
      drainTimers := drainTimers - 1;
      DrainQueue();
    }

    method FireCleanTimer()
      requires Inv(Abs()) && Enabled(Abs(), CleanTimer)
      modifies this
      ensures Inv(Abs()) && Abs() == Do(old(Abs()), CleanTimer)
    {
      hide CleanUp, Pending;
      StepKeeps(Abs(), CleanTimer);
      cleanTimers := cleanTimers - 1;
      CleanUpNextTick();
    }

    method CallbackReturns()
      requires Inv(Abs()) && Enabled(Abs(), Returns)
      modifies this
      ensures Inv(Abs()) && Abs() == Do(old(Abs()), Returns)
    {
      hide NextItem, Pending;
      StepKeeps(Abs(), Returns);
      running := false;
      Loop();
    }

    method CallbackThrows()
      requires Inv(Abs()) && Enabled(Abs(), Throws)
      modifies this
      ensures Inv(Abs()) && Abs() == Do(old(Abs()), Throws)
    {
      StepKeeps(Abs(), Throws);
      running := false;
    }
  }
}
