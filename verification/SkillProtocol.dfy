/**
 * The onboarding skill's optimistic concurrency: any number of `applyEvent` handlers read a versioned state record,
 * run an arbitrary state machine, and write each changed state back under the version they expect.
 *
 * One step of the system is one atomic action of the runtime: a read, a transition, a write reaching the database, a
 * write failing before it gets there, or the continuation of a finished write. Every interleaving is a sequence of such
 * steps.
 */
module SkillProtocol {
  import opened JsStrings

  type Id = string

  type State = string

  type Event = string

  type Command = string

  /** The state machine: an arbitrary transition function, with the commands its actions dispatch. */
  datatype Turn = Turn(state: State, changed: bool, commands: seq<Command>)

  datatype Machine = Machine(initial: State, closed: State -> bool, step: (State, Event) -> Turn)

  // ---------------------------------------------------------------- the store

  datatype Record = Record(version: nat, state: State)

  type Docs = map<Id, Record>

  /** `update` with filter {_id, version}, $inc version, $set state and upsert; `ok` is false on a duplicate key. */
  function Upsert(docs: Docs, id: Id, version: nat, state: State): (r: (Docs, bool))
    ensures r.1 ==> id in r.0 && r.0[id] == Record(version + 1, state)
    ensures r.1 <==> id !in docs || docs[id].version == version
    ensures !r.1 ==> r.0 == docs
    ensures forall other :: other != id ==>
              (other in r.0 <==> other in docs) && (other in docs ==> r.0[other] == docs[other])
  {
    if id in docs && docs[id].version == version then (docs[id := Record(docs[id].version + 1, state)], true)
    else if id !in docs then (docs[id := Record(version + 1, state)], true)
    else (docs, false)
  }

  // ---------------------------------------------------------------- one handler

  datatype Write = Write(version: nat, event: Event, from: State, state: State)

  /**
   * One call of `applyEvent`. `writes` are the updates issued, `outcomes` the results of those that are decided,
   * `settled` those whose continuation has run; the three command sequences belong to the deferred dispatcher.
   */
  datatype Handler = Handler(
    conv: Id, running: bool, base: nat, loaded: State, counter: nat, current: State,
    writes: seq<Write>, outcomes: seq<bool>, settled: set<nat>,
    queue: seq<Command>, enqueued: seq<Command>, released: seq<Command>)

  function Open(m: Machine, docs: Docs, conv: Id): Handler {
    var found := conv in docs;
    var base := if found then docs[conv].version else 0;
    var state := if found then docs[conv].state else m.initial;
    Handler(conv, !(found && m.closed(state)), base, state, base, state, [], [], {}, [], [], [])
  }

  /** A transition: actions fill the deferred queue; a changed state is written under `versionCounter++`. */
  function Fire(m: Machine, h: Handler, event: Event): Handler {
    var turn := m.step(h.current, event);
    var h' := h.(queue := h.queue + turn.commands, enqueued := h.enqueued + turn.commands);
    if !turn.changed then h'
    else h'.(current := turn.state, counter := h.counter + 1,
             writes := h.writes + [Write(h.counter, event, h.current, turn.state)])
  }

  predicate HasUnapplied(h: Handler) {
    |h.outcomes| < |h.writes|
  }

  predicate IsUnsettled(h: Handler, k: nat) {
    k < |h.outcomes| && k !in h.settled
  }

  /** The continuation after the `k`-th `await update`: commit the whole queue on success, leave it on failure. */
  function Settle(h: Handler, k: nat): Handler
    requires IsUnsettled(h, k)
  {
    if h.outcomes[k] then h.(settled := h.settled + {k}, released := h.released + h.queue, queue := [])
    else h.(settled := h.settled + {k})
  }

  // ---------------------------------------------------------------- the system

  /** A successful write, by the `index`-th write of `handler`. */
  datatype Entry = Entry(handler: nat, index: nat, state: State)

  datatype System = System(docs: Docs, history: map<Id, seq<Entry>>, handlers: map<nat, Handler>) {
    function Log(id: Id): seq<Entry> {
      if id in history then history[id] else []
    }
  }

  const START := System(map[], map[], map[])

  datatype Step =
    | Begin(hid: nat, conv: Id)
    | Transit(hid: nat, event: Event)
    | Reach(hid: nat)
    | Lose(hid: nat)
    | Resume(hid: nat, write: nat)

  predicate Enabled(s: System, step: Step) {
    match step
    case Begin(hid, _) => hid !in s.handlers
    case Transit(hid, _) => hid in s.handlers && s.handlers[hid].running
    case Reach(hid) => hid in s.handlers && HasUnapplied(s.handlers[hid])
    case Lose(hid) => hid in s.handlers && HasUnapplied(s.handlers[hid])
    case Resume(hid, k) => hid in s.handlers && IsUnsettled(s.handlers[hid], k)
  }

  /** The oldest undecided write of `hid` reaches the database now. */
  function ReachStep(s: System, hid: nat): System
    requires Enabled(s, Reach(hid))
  {
    var h := s.handlers[hid];
    var k := |h.outcomes|;
    var write := h.writes[k];
    var result := Upsert(s.docs, h.conv, write.version, write.state);
    System(
      result.0,
      if result.1 then s.history[h.conv := s.Log(h.conv) + [Entry(hid, k, write.state)]] else s.history,
      s.handlers[hid := h.(outcomes := h.outcomes + [result.1])])
  }

  /** The oldest undecided write fails without reaching the database, for want of a connection. */
  function LoseStep(s: System, hid: nat): System
    requires Enabled(s, Lose(hid))
  {
    var h := s.handlers[hid];
    s.(handlers := s.handlers[hid := h.(outcomes := h.outcomes + [false])])
  }

  function Do(m: Machine, s: System, step: Step): System
    requires Enabled(s, step)
  {
    match step
    case Begin(hid, conv) => s.(handlers := s.handlers[hid := Open(m, s.docs, conv)])
    case Transit(hid, event) => s.(handlers := s.handlers[hid := Fire(m, s.handlers[hid], event)])
    case Reach(hid) => ReachStep(s, hid)
    case Lose(hid) => LoseStep(s, hid)
    case Resume(hid, k) => s.(handlers := s.handlers[hid := Settle(s.handlers[hid], k)])
  }

  /** The steps of an interleaving are enabled one after the other. */
  predicate Legal(m: Machine, s: System, steps: seq<Step>)
    decreases |steps|
  {
    steps == [] || (Enabled(s, steps[0]) && Legal(m, Do(m, s, steps[0]), steps[1..]))
  }

  function Run(m: Machine, s: System, steps: seq<Step>): System
    requires Legal(m, s, steps)
    decreases |steps|
  {
    if steps == [] then s else Run(m, Do(m, s, steps[0]), steps[1..])
  }

  // ---------------------------------------------------------------- invariant

  /** The filter version of the first successful write: the number of writes its handler had lost before. */
  function First(log: seq<Entry>): nat {
    if log == [] then 0 else log[0].index
  }

  /** The record of a conversation is the last successful write, and its version counts them, from the first one on. */
  predicate StoreMatches(s: System, id: Id) {
    var log := s.Log(id);
    && (id in s.docs <==> log != [])
    && (id in s.docs ==> s.docs[id] == Record(First(log) + |log|, log[|log| - 1].state))
  }

  function StateBefore(m: Machine, log: seq<Entry>, i: nat): State
    requires i <= |log|
  {
    if i == 0 then m.initial else log[i - 1].state
  }

  function From(h: Handler, k: nat): State
    requires k <= |h.writes|
  {
    if k == 0 then h.loaded else h.writes[k - 1].state
  }

  predicate WriteIsStep(m: Machine, h: Handler, k: nat)
    requires k < |h.writes|
  {
    var w := h.writes[k];
    w.version == h.base + k && w.from == From(h, k) && w.state == m.step(w.from, w.event).state
  }

  /** The handler's own bookkeeping: consecutive versions, each write a machine step from the one before. */
  predicate Chained(m: Machine, h: Handler) {
    && h.counter == h.base + |h.writes|
    && h.current == From(h, |h.writes|)
    && (forall k :: 0 <= k < |h.writes| ==> WriteIsStep(m, h, k))
    && |h.outcomes| <= |h.writes|
  }

  predicate Deferred(h: Handler) {
    && (forall k :: k in h.settled ==> k < |h.outcomes|)
    && h.enqueued == h.released + h.queue
    && (h.released != [] ==> exists k :: k in h.settled && h.outcomes[k])
  }

  /** A handler that found no record starts from the initial state at version 0, any other from the record it found. */
  predicate ReadFrom(m: Machine, h: Handler, log: seq<Entry>) {
    if h.base == 0 then h.loaded == m.initial
    else First(log) < h.base <= First(log) + |log| && h.loaded == log[h.base - First(log) - 1].state
  }

  /** What the handler read, and its successful writes, stand in the log at the versions they claim. */
  predicate Logged(m: Machine, hid: nat, h: Handler, log: seq<Entry>) {
    && ReadFrom(m, h, log)
    && |h.outcomes| <= |h.writes|
    && forall k :: 0 <= k < |h.outcomes| && h.outcomes[k] ==>
         && First(log) <= h.base + k < First(log) + |log|
         && log[h.base + k - First(log)] == Entry(hid, k, h.writes[k].state)
  }

  predicate HandlerOk(m: Machine, s: System, hid: nat)
    requires hid in s.handlers
  {
    var h := s.handlers[hid];
    Chained(m, h) && Deferred(h) && Logged(m, hid, h, s.Log(h.conv))
  }

  /** Entry i of a log was written under filter version First + i by a handler of that conversation. */
  predicate EntryOk(s: System, id: Id, i: nat)
    requires i < |s.Log(id)|
  {
    var e := s.Log(id)[i];
    && e.handler in s.handlers
    && var h := s.handlers[e.handler];
       h.conv == id && e.index < |h.outcomes| && h.outcomes[e.index]
       && h.base + e.index == First(s.Log(id)) + i
  }

  ghost predicate Inv(m: Machine, s: System) {
    && (forall id :: StoreMatches(s, id))
    && (forall hid :: hid in s.handlers ==> HandlerOk(m, s, hid))
    && (forall id, i :: 0 <= i < |s.Log(id)| ==> EntryOk(s, id, i))
  }

  // ---------------------------------------------------------------- preservation

  lemma OpenIsOk(m: Machine, s: System, hid: nat, conv: Id)
    requires Inv(m, s) && hid !in s.handlers
    ensures HandlerOk(m, Do(m, s, Begin(hid, conv)), hid)
  {
    assert StoreMatches(s, conv);
  }

  lemma OpenKeeps(m: Machine, s: System, hid: nat, conv: Id)
    requires Inv(m, s) && hid !in s.handlers
    ensures Inv(m, Do(m, s, Begin(hid, conv)))
  {
    hide Open, Chained, Deferred, Logged;
    var s' := Do(m, s, Begin(hid, conv));
    assert s'.history == s.history && s'.docs == s.docs;
    hide StoreMatches;
    forall id
      ensures StoreMatches(s', id)
    {
      assert StoreMatches(s, id) && s'.Log(id) == s.Log(id);
    }
    forall other | other in s'.handlers
      ensures HandlerOk(m, s', other)
    {
      if other == hid {
        OpenIsOk(m, s, hid, conv);
      } else {
        assert HandlerOk(m, s, other);
      }
    }
    forall id, i | 0 <= i < |s'.Log(id)|
      ensures EntryOk(s', id, i)
    {
      assert EntryOk(s, id, i);
    }
  }

  lemma FireKeepsChain(m: Machine, h: Handler, event: Event)
    requires Chained(m, h) && Deferred(h)
    ensures Chained(m, Fire(m, h, event)) && Deferred(Fire(m, h, event))
  {
    var h' := Fire(m, h, event);
    forall k | 0 <= k < |h'.writes|
      ensures WriteIsStep(m, h', k)
    {
      if k < |h.writes| {
        assert WriteIsStep(m, h, k);
      }
    }
  }

  /** Decided writes keep their outcomes, and writes decided since then have failed. */
  predicate OnlyFailures(h: Handler, h': Handler) {
    && h.outcomes <= h'.outcomes && |h'.outcomes| <= |h'.writes|
    && forall k :: |h.outcomes| <= k < |h'.outcomes| ==> !h'.outcomes[k]
  }

  /** Longer write lists, more failures and longer logs keep what is logged about a handler. */
  lemma LoggedExtends(m: Machine, hid: nat, h: Handler, h': Handler, log: seq<Entry>, log': seq<Entry>)
    requires Logged(m, hid, h, log) && log <= log' && h.writes <= h'.writes
    requires h'.base == h.base && h'.loaded == h.loaded && OnlyFailures(h, h')
    ensures Logged(m, hid, h', log')
  {
    assert log != [] ==> First(log') == First(log);
    assert forall k :: 0 <= k < |h'.outcomes| && h'.outcomes[k] ==> k < |h.outcomes| && h.outcomes[k];
  }

  /** A step inside one handler that decides no write in its favour keeps the invariant. */
  lemma LocalKeeps(m: Machine, s: System, hid: nat, h': Handler)
    requires Inv(m, s) && hid in s.handlers
    requires var h := s.handlers[hid];
             && h'.conv == h.conv && h'.base == h.base && h'.loaded == h.loaded && OnlyFailures(h, h')
             && h.writes <= h'.writes && Chained(m, h') && Deferred(h')
    ensures Inv(m, s.(handlers := s.handlers[hid := h']))
  {
    hide Chained, Deferred, Logged;
    var s' := s.(handlers := s.handlers[hid := h']);
    forall id
      ensures StoreMatches(s', id)
    {
      assert StoreMatches(s, id) && s'.Log(id) == s.Log(id);
    }
    forall other | other in s'.handlers
      ensures HandlerOk(m, s', other)
    {
      assert HandlerOk(m, s, other);
      if other == hid {
        var log := s.Log(h'.conv);
        LoggedExtends(m, hid, s.handlers[hid], h', log, log);
      }
    }
    forall id, i | 0 <= i < |s'.Log(id)|
      ensures EntryOk(s', id, i)
    {
      assert EntryOk(s, id, i);
    }
  }

  lemma SameChain(m: Machine, h: Handler, h': Handler)
    requires Chained(m, h)
    requires h'.base == h.base && h'.loaded == h.loaded && h'.writes == h.writes
    requires h'.counter == h.counter && h'.current == h.current && |h'.outcomes| <= |h.writes|
    ensures Chained(m, h')
  {
    forall k | 0 <= k < |h'.writes|
      ensures WriteIsStep(m, h', k)
    {
      assert WriteIsStep(m, h, k);
    }
  }

  lemma SettleKeeps(m: Machine, h: Handler, k: nat)
    requires Chained(m, h) && Deferred(h) && IsUnsettled(h, k)
    ensures Chained(m, Settle(h, k)) && Deferred(Settle(h, k))
  {
    var h' := Settle(h, k);
    SameChain(m, h, h');
    if h.outcomes[k] {
      assert h'.released + h'.queue == h.released + h.queue;
      assert k in h'.settled;
    } else if h'.released != [] {
      var j :| j in h.settled && h.outcomes[j];
      assert j in h'.settled;
    }
  }

  lemma DeferredAfterOutcome(h: Handler, ok: bool)
    requires Deferred(h)
    ensures Deferred(h.(outcomes := h.outcomes + [ok]))
  {
    var h' := h.(outcomes := h.outcomes + [ok]);
    if h'.released != [] {
      var k :| k in h.settled && h.outcomes[k];
      assert h'.outcomes[k];
    }
  }

  /** A write that finds no record comes from a handler that read none and has only lost writes so far. */
  lemma InsertIsFirst(m: Machine, s: System, hid: nat)
    requires Inv(m, s) && Enabled(s, Reach(hid))
    requires s.handlers[hid].conv !in s.docs
    ensures s.handlers[hid].base == 0 && s.Log(s.handlers[hid].conv) == []
  {
    assert HandlerOk(m, s, hid);
    assert StoreMatches(s, s.handlers[hid].conv);
  }

  /** A successful write lands in the log at its filter version. */
  lemma SuccessPosition(m: Machine, s: System, hid: nat)
    requires Inv(m, s) && Enabled(s, Reach(hid))
    ensures var h := s.handlers[hid];
            var w := h.writes[|h.outcomes|];
            var log := s.Log(h.conv);
            && w.version == h.base + |h.outcomes|
            && (Upsert(s.docs, h.conv, w.version, w.state).1 ==>
                  if log == [] then h.base == 0 else w.version == First(log) + |log|)
            && (!Upsert(s.docs, h.conv, w.version, w.state).1 ==> log != [])
  {
    var h := s.handlers[hid];
    assert HandlerOk(m, s, hid);
    assert StoreMatches(s, h.conv);
    assert WriteIsStep(m, h, |h.outcomes|);
    if h.conv !in s.docs {
      InsertIsFirst(m, s, hid);
    }
  }

  lemma StoreOf(m: Machine, s: System, id: Id)
    requires Inv(m, s)
    ensures StoreMatches(s, id)
  {
  }

  lemma HandlerOf(m: Machine, s: System, hid: nat)
    requires Inv(m, s) && hid in s.handlers
    ensures HandlerOk(m, s, hid)
  {
  }

  lemma BoundsOf(m: Machine, h: Handler)
    requires Chained(m, h)
    ensures |h.outcomes| <= |h.writes|
  {
  }

  /** What a write that reaches the database changes. */
  lemma ReachChanges(s: System, hid: nat)
    requires Enabled(s, Reach(hid))
    ensures var s', h := ReachStep(s, hid), s.handlers[hid];
            var w := h.writes[|h.outcomes|];
            var ok := Upsert(s.docs, h.conv, w.version, w.state).1;
            && s'.handlers == s.handlers[hid := h.(outcomes := h.outcomes + [ok])]
            && (forall id :: s'.Log(id) ==
                               s.Log(id) + if ok && id == h.conv then [Entry(hid, |h.outcomes|, w.state)] else [])
            && (forall id :: id in s'.docs <==> id in s.docs || (ok && id == h.conv))
            && (forall id :: id in s'.docs ==>
                  s'.docs[id] == if ok && id == h.conv then Record(w.version + 1, w.state) else s.docs[id])
  {
  }

  lemma LoggedAfterOutcome(m: Machine, hid: nat, h: Handler, ok: bool, log: seq<Entry>, log': seq<Entry>)
    requires Logged(m, hid, h, log) && HasUnapplied(h)
    requires log' == log + if ok then [Entry(hid, |h.outcomes|, h.writes[|h.outcomes|].state)] else []
    requires ok ==> if log == [] then h.base == 0 else h.base + |h.outcomes| == First(log) + |log|
    ensures Logged(m, hid, h.(outcomes := h.outcomes + [ok]), log')
  {
    LoggedExtends(m, hid, h, h, log, log');
  }

  /** The writing handler after its outcome is known. */
  lemma ReachKeepsWriter(m: Machine, s: System, hid: nat)
    requires Inv(m, s) && Enabled(s, Reach(hid))
    ensures HandlerOk(m, ReachStep(s, hid), hid)
  {
    hide Chained, Deferred, WriteIsStep, ReachStep, Upsert, Inv, Logged;
    var s', h := ReachStep(s, hid), s.handlers[hid];
    HandlerOf(m, s, hid);
    BoundsOf(m, h);
    SuccessPosition(m, s, hid);
    ReachChanges(s, hid);
    var ok := s'.handlers[hid].outcomes[|h.outcomes|];
    DeferredAfterOutcome(h, ok);
    SameChain(m, h, s'.handlers[hid]);
    LoggedAfterOutcome(m, hid, h, ok, s.Log(h.conv), s'.Log(h.conv));
  }

  lemma ReachKeepsStore(m: Machine, s: System, hid: nat, id: Id)
    requires Inv(m, s) && Enabled(s, Reach(hid))
    ensures StoreMatches(ReachStep(s, hid), id)
  {
    hide ReachStep, Upsert, Inv;
    assert StoreMatches(s, id) by {
      StoreOf(m, s, id);
    }
    SuccessPosition(m, s, hid);
    ReachChanges(s, hid);
    HandlerOf(m, s, hid);
    BoundsOf(m, s.handlers[hid]);
    assert WriteIsStep(m, s.handlers[hid], |s.handlers[hid].outcomes|) by {
      assert Chained(m, s.handlers[hid]);
    }
  }

  lemma ReachKeepsOther(m: Machine, s: System, hid: nat, other: nat)
    requires Inv(m, s) && Enabled(s, Reach(hid)) && other in s.handlers && other != hid
    ensures other in ReachStep(s, hid).handlers && HandlerOk(m, ReachStep(s, hid), other)
  {
    hide ReachStep, Upsert, Inv, Chained, Deferred, Logged;
    HandlerOf(m, s, other);
    ReachChanges(s, hid);
    var o := s.handlers[other];
    BoundsOf(m, o);
    LoggedExtends(m, other, o, o, s.Log(o.conv), ReachStep(s, hid).Log(o.conv));
  }

  lemma ReachKeepsEntry(m: Machine, s: System, hid: nat, id: Id, i: nat)
    requires Inv(m, s) && Enabled(s, Reach(hid)) && i < |ReachStep(s, hid).Log(id)|
    ensures EntryOk(ReachStep(s, hid), id, i)
  {
    hide ReachStep, Upsert, StoreMatches, HandlerOk;
    ReachChanges(s, hid);
    SuccessPosition(m, s, hid);
    if i < |s.Log(id)| {
      assert EntryOk(s, id, i);
    }
  }

  lemma ReachKeeps(m: Machine, s: System, hid: nat)
    requires Inv(m, s) && Enabled(s, Reach(hid))
    ensures Inv(m, ReachStep(s, hid))
  {
    var s' := ReachStep(s, hid);
    assert s'.handlers.Keys == s.handlers.Keys;
    hide ReachStep, StoreMatches, HandlerOk, EntryOk;
    forall id
      ensures StoreMatches(s', id)
    {
      ReachKeepsStore(m, s, hid, id);
    }
    forall other | other in s'.handlers
      ensures HandlerOk(m, s', other)
    {
      if other == hid {
        ReachKeepsWriter(m, s, hid);
      } else {
        ReachKeepsOther(m, s, hid, other);
      }
    }
    forall id, i | 0 <= i < |s'.Log(id)|
      ensures EntryOk(s', id, i)
    {
      ReachKeepsEntry(m, s, hid, id, i);
    }
  }

  lemma LoseKeeps(m: Machine, s: System, hid: nat)
    requires Inv(m, s) && Enabled(s, Lose(hid))
    ensures Inv(m, LoseStep(s, hid))
  {
    hide Chained, Deferred, Logged, StoreMatches, EntryOk;
    var h := s.handlers[hid];
    var h' := h.(outcomes := h.outcomes + [false]);
    assert HandlerOk(m, s, hid);
    DeferredAfterOutcome(h, false);
    SameChain(m, h, h');
    LocalKeeps(m, s, hid, h');
  }

  lemma FireExtends(m: Machine, h: Handler, event: Event)
    ensures var h' := Fire(m, h, event);
            && h'.conv == h.conv && h'.base == h.base && h'.loaded == h.loaded && h'.outcomes == h.outcomes
            && h.writes <= h'.writes && h.enqueued <= h'.enqueued && h'.released == h.released
  {
  }

  /** A success releases the whole queue, a failure nothing. */
  lemma SettleExtends(h: Handler, k: nat)
    requires IsUnsettled(h, k)
    ensures var h' := Settle(h, k);
            && h'.conv == h.conv && h'.base == h.base && h'.loaded == h.loaded && h'.outcomes == h.outcomes
            && h'.writes == h.writes && h'.enqueued == h.enqueued && h.released <= h'.released
            && (!h.outcomes[k] ==> h'.released == h.released)
            && (h.outcomes[k] && Deferred(h) ==> h'.released == h'.enqueued)
  {
  }

  lemma StepKeeps(m: Machine, s: System, step: Step)
    requires Inv(m, s) && Enabled(s, step)
    ensures Inv(m, Do(m, s, step))
  {
    hide Chained, Deferred, Logged, StoreMatches, EntryOk, Fire, Settle, Open, ReachStep, LoseStep;
    match step
    case Begin(hid, conv) => OpenKeeps(m, s, hid, conv);
    case Reach(hid) => ReachKeeps(m, s, hid);
    case Transit(hid, event) =>
      assert HandlerOk(m, s, hid);
      FireKeepsChain(m, s.handlers[hid], event);
      FireExtends(m, s.handlers[hid], event);
      BoundsOf(m, Fire(m, s.handlers[hid], event));
      LocalKeeps(m, s, hid, Fire(m, s.handlers[hid], event));
    case Lose(hid) => LoseKeeps(m, s, hid);
    case Resume(hid, k) =>
      assert HandlerOk(m, s, hid);
      BoundsOf(m, s.handlers[hid]);
      SettleKeeps(m, s.handlers[hid], k);
      SettleExtends(s.handlers[hid], k);
      LocalKeeps(m, s, hid, Settle(s.handlers[hid], k));
  }

  lemma {:induction false} RunKeeps(m: Machine, s: System, steps: seq<Step>)
    requires Inv(m, s) && Legal(m, s, steps)
    ensures Inv(m, Run(m, s, steps))
    decreases |steps|
  {
    if steps != [] {
      StepKeeps(m, s, steps[0]);
      RunKeeps(m, Do(m, s, steps[0]), steps[1..]);
    }
  }

  lemma StartIsOk(m: Machine)
    ensures Inv(m, START)
  {
  }

  // ---------------------------------------------------------------- theorems about every interleaving

  lemma Reachable(m: Machine, steps: seq<Step>)
    requires Legal(m, START, steps)
    ensures Inv(m, Run(m, START, steps))
  {
    StartIsOk(m);
    RunKeeps(m, START, steps);
  }

  /** The log of a conversation is append-only, and one step appends at most one entry. */
  lemma StepAppends(m: Machine, s: System, step: Step, id: Id)
    requires Enabled(s, step)
    ensures s.Log(id) <= Do(m, s, step).Log(id)
    ensures |Do(m, s, step).Log(id)| <= |s.Log(id)| + 1
  {
  }

  lemma {:induction false} RunAppends(m: Machine, s: System, steps: seq<Step>, id: Id)
    requires Legal(m, s, steps)
    ensures s.Log(id) <= Run(m, s, steps).Log(id)
    decreases |steps|
  {
    hide Do;
    if steps != [] {
      StepAppends(m, s, steps[0], id);
      RunAppends(m, Do(m, s, steps[0]), steps[1..], id);
    }
  }

  predicate Succeeded(s: System, hid: nat, k: nat) {
    hid in s.handlers && k < |s.handlers[hid].outcomes| && s.handlers[hid].outcomes[k]
    && k < |s.handlers[hid].writes|
  }

  /** Two successful writes of a conversation that were issued with the same filter version. */
  predicate SameFilter(s: System, id: Id, a: nat, j: nat, b: nat, k: nat) {
    && Succeeded(s, a, j) && Succeeded(s, b, k)
    && s.handlers[a].conv == id && s.handlers[b].conv == id
    && s.handlers[a].writes[j].version == s.handlers[b].writes[k].version
  }

  lemma SuccessIsLogged(m: Machine, s: System, hid: nat, k: nat)
    requires Inv(m, s) && Succeeded(s, hid, k)
    ensures var h := s.handlers[hid];
            var log := s.Log(h.conv);
            var v := h.writes[k].version;
            First(log) <= v < First(log) + |log| && log[v - First(log)] == Entry(hid, k, h.writes[k].state)
  {
    assert HandlerOk(m, s, hid);
    assert WriteIsStep(m, s.handlers[hid], k);
  }

  lemma SameFilterSameWrite(m: Machine, s: System, id: Id, a: nat, j: nat, b: nat, k: nat)
    requires Inv(m, s) && SameFilter(s, id, a, j, b, k)
    ensures a == b && j == k
  {
    SuccessIsLogged(m, s, a, j);
    SuccessIsLogged(m, s, b, k);
  }

  /**
   * Versions are consumed one by one: the i-th successful write had filter version First + i, First being the number of
   * writes the first successful writer had lost before; the stored version is one more than the last, so that it grows
   * by one with every success after the first; and no two successful writes of a conversation share a filter version.
   */
  lemma VersionsAreConsumedOnce(m: Machine, steps: seq<Step>, id: Id)
    requires Legal(m, START, steps)
    ensures var s := Run(m, START, steps);
            && (id in s.docs <==> s.Log(id) != [])
            && (id in s.docs ==> s.docs[id].version == First(s.Log(id)) + |s.Log(id)|)
            && (forall i :: 0 <= i < |s.Log(id)| ==>
                  var e := s.Log(id)[i];
                  && Succeeded(s, e.handler, e.index)
                  && s.handlers[e.handler].writes[e.index].version == First(s.Log(id)) + i)
            && (forall a: nat, j: nat, b: nat, k: nat :: SameFilter(s, id, a, j, b, k) ==> a == b && j == k)
  {
    hide Run, Legal, SameFilter, First;
    Reachable(m, steps);
    var s := Run(m, START, steps);
    assert StoreMatches(s, id);
    forall i | 0 <= i < |s.Log(id)|
      ensures var e := s.Log(id)[i];
              && Succeeded(s, e.handler, e.index)
              && s.handlers[e.handler].writes[e.index].version == First(s.Log(id)) + i
    {
      var e := s.Log(id)[i];
      assert EntryOk(s, id, i) && HandlerOk(m, s, e.handler);
      assert WriteIsStep(m, s.handlers[e.handler], e.index);
    }
    forall a: nat, j: nat, b: nat, k: nat | SameFilter(s, id, a, j, b, k)
      ensures a == b && j == k
    {
      SameFilterSameWrite(m, s, id, a, j, b, k);
    }
  }

  /** The i-th stored state was computed from the one before, as read or as stored by the same handler. */
  predicate ComputedFromStored(s: System, id: Id, i: nat)
    requires i < |s.Log(id)| && s.Log(id)[i].handler in s.handlers
  {
    var e := s.Log(id)[i];
    || (e.index == 0 && s.handlers[e.handler].base == First(s.Log(id)) + i)
    || (e.index > 0 && i > 0 && s.Log(id)[i - 1].handler == e.handler && s.Log(id)[i - 1].index == e.index - 1)
  }

  /** Where the i-th stored state comes from, in one state of the system. */
  predicate OriginKnown(m: Machine, s: System, id: Id, i: nat)
    requires i < |s.Log(id)| && s.Log(id)[i].handler in s.handlers
  {
    var log := s.Log(id);
    var e := log[i];
    var h := s.handlers[e.handler];
    && e.index < |h.writes| && e.index < |h.outcomes|
    && (ComputedFromStored(s, id, i) <==> e.index == 0 || h.outcomes[e.index - 1])
    && (ComputedFromStored(s, id, i) ==> e.state == m.step(StateBefore(m, log, i), h.writes[e.index].event).state)
    && (!ComputedFromStored(s, id, i) ==>
          if i > 0 then log[i - 1].handler != e.handler
          else e.index > 0 && forall k :: 0 <= k < e.index ==> !h.outcomes[k])
  }

  lemma OriginFollows(m: Machine, s: System, id: Id, i: nat)
    requires Inv(m, s) && i < |s.Log(id)|
    ensures s.Log(id)[i].handler in s.handlers && OriginKnown(m, s, id, i)
  {
    hide StoreMatches, Deferred;
    var log := s.Log(id);
    var e := log[i];
    assert EntryOk(s, id, i);
    assert HandlerOk(m, s, e.handler);
    var h := s.handlers[e.handler];
    assert WriteIsStep(m, h, e.index);
    if e.index > 0 {
      assert WriteIsStep(m, h, e.index - 1);
      if i > 0 {
        assert EntryOk(s, id, i - 1);
      }
    }
  }

  /**
   * The exact reach of the optimistic lock, for every interleaving: a stored state was computed from the state stored
   * right before it (or from the initial state, if none was) if and only if the handler's preceding write, if it has
   * one, succeeded. Then it is the machine successor of that state; otherwise it replaces a state stored by another
   * handler that it never saw, or all earlier writes of its handler were lost.
   */
  lemma NoLostUpdateIff(m: Machine, steps: seq<Step>, id: Id, i: nat)
    requires Legal(m, START, steps) && i < |Run(m, START, steps).Log(id)|
    ensures var s := Run(m, START, steps);
            var log := s.Log(id);
            var e := log[i];
            && e.handler in s.handlers && e.index < |s.handlers[e.handler].writes|
            && e.index < |s.handlers[e.handler].outcomes|
            && var h := s.handlers[e.handler];
               && (ComputedFromStored(s, id, i) <==> e.index == 0 || h.outcomes[e.index - 1])
               && (ComputedFromStored(s, id, i) ==>
                     e.state == m.step(StateBefore(m, log, i), h.writes[e.index].event).state)
               && (!ComputedFromStored(s, id, i) ==>
                     if i > 0 then log[i - 1].handler != e.handler
                     else e.index > 0 && forall k :: 0 <= k < e.index ==> !h.outcomes[k])
  {
    hide Run, Legal, Inv, ComputedFromStored, StateBefore;
    Reachable(m, steps);
    OriginFollows(m, Run(m, START, steps), id, i);
  }

  /** A handler without earlier failure stores the successor of what was stored before, or of the initial state. */
  lemma SuccessorOfStored(m: Machine, steps: seq<Step>, id: Id, i: nat)
    requires Legal(m, START, steps) && i < |Run(m, START, steps).Log(id)|
    ensures var s := Run(m, START, steps);
            var e := s.Log(id)[i];
            && e.handler in s.handlers && e.index < |s.handlers[e.handler].writes|
            && e.index < |s.handlers[e.handler].outcomes|
            && var h := s.handlers[e.handler];
               (forall j :: 0 <= j < e.index ==> h.outcomes[j]) ==>
                 e.state == m.step(StateBefore(m, s.Log(id), i), h.writes[e.index].event).state
  {
    NoLostUpdateIff(m, steps, id, i);
  }

  // ---------------------------------------------------------------- the machine alone

  /** The events of a handler's transitions, in order. */
  function Given(step: Step, hid: nat): seq<Event> {
    if step.Transit? && step.hid == hid then [step.event] else []
  }

  function EventsOf(steps: seq<Step>, hid: nat): seq<Event> {
    if steps == [] then [] else Given(steps[0], hid) + EventsOf(steps[1..], hid)
  }

  /** The state after some events: a turn that changes nothing leaves it as it was. */
  function After(m: Machine, state: State, event: Event): State {
    var turn := m.step(state, event);
    if turn.changed then turn.state else state
  }

  function StateAfter(m: Machine, state: State, events: seq<Event>): State
    decreases events
  {
    if events == [] then state else StateAfter(m, After(m, state, events[0]), events[1..])
  }

  /** Every command the machine's actions dispatch over some events. */
  function Dispatched(m: Machine, state: State, events: seq<Event>): seq<Command>
    decreases events
  {
    if events == [] then []
    else m.step(state, events[0]).commands + Dispatched(m, After(m, state, events[0]), events[1..])
  }

  /** The updates due over some events, one for every change, under consecutive versions. */
  function Changes(m: Machine, state: State, version: nat, events: seq<Event>): seq<Write>
    decreases events
  {
    if events == [] then []
    else if !m.step(state, events[0]).changed then Changes(m, state, version, events[1..])
    else
      var next := m.step(state, events[0]).state;
      [Write(version, events[0], state, next)] + Changes(m, next, version + 1, events[1..])
  }

  lemma StepReplays(m: Machine, s: System, step: Step, hid: nat)
    requires Enabled(s, step) && hid in s.handlers
    ensures hid in Do(m, s, step).handlers
    ensures var h, h' := s.handlers[hid], Do(m, s, step).handlers[hid];
            && h'.conv == h.conv && h'.running == h.running && h'.base == h.base && h'.loaded == h.loaded
            && (if Given(step, hid) == [] then
                  h'.current == h.current && h'.enqueued == h.enqueued && h'.writes == h.writes
                  && h'.counter == h.counter
                else
                  var event := Given(step, hid)[0];
                  var turn := m.step(h.current, event);
                  && h.running && Given(step, hid) == [event]
                  && h'.current == After(m, h.current, event) && h'.enqueued == h.enqueued + turn.commands
                  && h'.writes == h.writes + (if turn.changed then [Write(h.counter, event, h.current, turn.state)]
                                              else [])
                  && h'.counter == h.counter + if turn.changed then 1 else 0)
  {
  }

  /** One event in front of the others. */
  lemma TurnOnce(m: Machine, state: State, events: seq<Event>, version: nat)
    requires events != []
    ensures var turn, next, rest := m.step(state, events[0]), After(m, state, events[0]), events[1..];
            && StateAfter(m, state, events) == StateAfter(m, next, rest)
            && Dispatched(m, state, events) == turn.commands + Dispatched(m, next, rest)
            && Changes(m, state, version, events)
               == (if turn.changed then [Write(version, events[0], state, turn.state)] else [])
                  + Changes(m, next, if turn.changed then version + 1 else version, rest)
  {
  }

  lemma {:induction false} RunReplays(m: Machine, s: System, steps: seq<Step>, hid: nat)
    requires Legal(m, s, steps) && hid in s.handlers
    ensures hid in Run(m, s, steps).handlers
    ensures var h, h', events := s.handlers[hid], Run(m, s, steps).handlers[hid], EventsOf(steps, hid);
            && h'.conv == h.conv && h'.running == h.running && h'.base == h.base && h'.loaded == h.loaded
            && (events != [] ==> h.running)
            && h'.current == StateAfter(m, h.current, events)
            && h'.enqueued == h.enqueued + Dispatched(m, h.current, events)
            && h'.writes == h.writes + Changes(m, h.current, h.counter, events)
    decreases |steps|
  {
    hide Do, Enabled, Given, After;
    if steps != [] {
      var s' := Do(m, s, steps[0]);
      StepReplays(m, s, steps[0], hid);
      RunReplays(m, s', steps[1..], hid);
      var rest, given, state := EventsOf(steps[1..], hid), Given(steps[0], hid), s.handlers[hid].current;
      if given == [] {
        assert given + rest == rest;
      } else {
        var events := given + rest;
        assert events[0] == given[0] && events[1..] == rest;
        TurnOnce(m, state, events, s.handlers[hid].counter);
      }
    }
  }

  lemma {:induction false} RunSplit(m: Machine, s: System, steps: seq<Step>, j: nat)
    requires Legal(m, s, steps) && j <= |steps|
    ensures Legal(m, s, steps[..j]) && Legal(m, Run(m, s, steps[..j]), steps[j..])
    ensures Run(m, s, steps) == Run(m, Run(m, s, steps[..j]), steps[j..])
    decreases |steps|
  {
    hide Do, Enabled;
    if j == 0 {
      assert steps[..0] == [] && steps[0..] == steps;
    } else {
      RunSplit(m, Do(m, s, steps[0]), steps[1..], j - 1);
      assert steps[..j][0] == steps[0] && steps[..j][1..] == steps[1..][..j - 1];
      assert steps[j..] == steps[1..][j - 1..];
    }
  }

  /** Before its call began a handler has had no event, and does not exist. */
  lemma {:induction false} NoEventsYet(m: Machine, s: System, steps: seq<Step>, hid: nat)
    requires Legal(m, s, steps) && hid !in Run(m, s, steps).handlers
    ensures EventsOf(steps, hid) == [] && hid !in s.handlers
    decreases |steps|
  {
    if steps != [] {
      NoEventsYet(m, Do(m, s, steps[0]), steps[1..], hid);
    }
  }

  lemma {:induction false} EventsSplit(steps: seq<Step>, j: nat, hid: nat)
    requires j <= |steps|
    ensures EventsOf(steps, hid) == EventsOf(steps[..j], hid) + EventsOf(steps[j..], hid)
    decreases |steps|
  {
    hide Given;
    if j == 0 {
      assert steps[..0] == [] && steps[0..] == steps;
    } else {
      EventsSplit(steps[1..], j - 1, hid);
      assert steps[..j][0] == steps[0] && steps[..j][1..] == steps[1..][..j - 1];
      assert steps[j..] == steps[1..][j - 1..];
    }
  }

  /** Every handler was begun at some step. */
  lemma {:induction false} BegunAt(m: Machine, s: System, steps: seq<Step>, hid: nat) returns (j: nat)
    requires Legal(m, s, steps) && hid !in s.handlers && hid in Run(m, s, steps).handlers
    ensures j < |steps| && steps[j].Begin? && steps[j].hid == hid
    decreases |steps|
  {
    j := 0;
    if !(steps[0].Begin? && steps[0].hid == hid) {
      var k := BegunAt(m, Do(m, s, steps[0]), steps[1..], hid);
      j := k + 1;
    }
  }

  lemma FirstEvents(steps: seq<Step>, hid: nat)
    requires steps != [] && steps[0].Begin?
    ensures EventsOf(steps, hid) == EventsOf(steps[1..], hid)
  {
  }

  lemma Begins(m: Machine, s: System, hid: nat, conv: Id)
    requires hid !in s.handlers
    ensures hid in Do(m, s, Begin(hid, conv)).handlers
    ensures var h := Do(m, s, Begin(hid, conv)).handlers[hid];
            var version := if conv in s.docs then s.docs[conv].version else 0;
            var state := if conv in s.docs then s.docs[conv].state else m.initial;
            h == Handler(conv, !(conv in s.docs && m.closed(state)), version, state, version, state, [], [], {}, [], [],
                         [])
  {
  }

  lemma Unfold(m: Machine, s: System, steps: seq<Step>)
    requires Legal(m, s, steps) && steps != []
    ensures Enabled(s, steps[0]) && Legal(m, Do(m, s, steps[0]), steps[1..])
    ensures Run(m, s, steps) == Run(m, Do(m, s, steps[0]), steps[1..])
  {
  }

  /**
   * What a handler has done, from the steps and the machine alone: begun at step j it has read the record stored then,
   * or the initial state at version 0 if there was none; a closed record lets it do nothing; otherwise its events, in
   * order, have driven the machine from that state, dispatching every command of every turn and issuing one update for
   * every change, under consecutive versions from the one read.
   */
  lemma HandlerReplays(m: Machine, steps: seq<Step>, j: nat)
    requires Legal(m, START, steps) && j < |steps| && steps[j].Begin?
    ensures Legal(m, START, steps[..j]) && steps[j].hid in Run(m, START, steps).handlers
    ensures var docs, conv := Run(m, START, steps[..j]).docs, steps[j].conv;
            var h, events := Run(m, START, steps).handlers[steps[j].hid], EventsOf(steps, steps[j].hid);
            var version := if conv in docs then docs[conv].version else 0;
            var state := if conv in docs then docs[conv].state else m.initial;
            && h.conv == conv && h.base == version && h.loaded == state
            && (conv in docs && m.closed(state) <==> !h.running) && (!h.running ==> events == [])
            && h.current == StateAfter(m, state, events)
            && h.enqueued == Dispatched(m, state, events)
            && h.writes == Changes(m, state, version, events)
  {
    hide Run, Legal, Dispatched, Changes, StateAfter, EventsOf, Do;
    var hid := steps[j].hid;
    RunSplit(m, START, steps, j);
    var before, rest := Run(m, START, steps[..j]), steps[j..];
    Unfold(m, before, rest);
    var s := Do(m, before, rest[0]);
    Begins(m, before, hid, steps[j].conv);
    NoEventsYet(m, START, steps[..j], hid);
    EventsSplit(steps, j, hid);
    FirstEvents(rest, hid);
    RunReplays(m, s, rest[1..], hid);
    var h, events := s.handlers[hid], EventsOf(steps, hid);
    assert events == EventsOf(rest[1..], hid);
    assert [] + Dispatched(m, h.current, events) == Dispatched(m, h.current, events);
    assert [] + Changes(m, h.current, h.counter, events) == Changes(m, h.current, h.counter, events);
  }

  /** The commands the machine has dispatched for the handler begun at step `j`, over all its events. */
  function Due(m: Machine, steps: seq<Step>, j: nat): seq<Command>
    requires j < |steps| && steps[j].Begin? && Legal(m, START, steps[..j])
  {
    var docs, conv := Run(m, START, steps[..j]).docs, steps[j].conv;
    Dispatched(m, if conv in docs then docs[conv].state else m.initial, EventsOf(steps, steps[j].hid))
  }

  /**
   * Deferred sending, for every interleaving: what a handler sent is a prefix of what the machine dispatched for it,
   * each command once and in order, and nothing was sent before one of its own writes succeeded.
   */
  lemma DeferredSending(m: Machine, steps: seq<Step>, j: nat)
    requires Legal(m, START, steps) && j < |steps| && steps[j].Begin?
    ensures Legal(m, START, steps[..j]) && steps[j].hid in Run(m, START, steps).handlers
    ensures var h := Run(m, START, steps).handlers[steps[j].hid];
            && h.released <= Due(m, steps, j) && h.enqueued == Due(m, steps, j)
            && (forall k :: k in h.settled ==> k < |h.outcomes|)
            && ((forall k :: k in h.settled ==> !h.outcomes[k]) ==> h.released == [])
  {
    hide Run, Legal, Chained, Logged, Dispatched, EventsOf;
    HandlerReplays(m, steps, j);
    Reachable(m, steps);
    assert HandlerOk(m, Run(m, START, steps), steps[j].hid);
  }

  lemma {:induction false} LegalSnoc(m: Machine, s: System, steps: seq<Step>, step: Step)
    requires Legal(m, s, steps) && Enabled(Run(m, s, steps), step)
    ensures Legal(m, s, steps + [step]) && Run(m, s, steps + [step]) == Do(m, Run(m, s, steps), step)
    decreases |steps|
  {
    hide Do, Enabled;
    if steps != [] {
      LegalSnoc(m, Do(m, s, steps[0]), steps[1..], step);
      assert (steps + [step])[1..] == steps[1..] + [step];
    }
  }

  /**
   * A step sends something only if it is the continuation of a successful write, and then everything the machine has
   * dispatched so far is sent; nothing is ever taken back.
   */
  lemma CommitReleasesAll(m: Machine, steps: seq<Step>, step: Step, j: nat)
    requires Legal(m, START, steps) && Enabled(Run(m, START, steps), step)
    requires j < |steps| && steps[j].Begin?
    ensures Legal(m, START, steps[..j])
    ensures var s, hid := Run(m, START, steps), steps[j].hid;
            var s' := Do(m, s, step);
            && hid in s.handlers && hid in s'.handlers
            && var h, h' := s.handlers[hid], s'.handlers[hid];
               if step.Resume? && step.hid == hid && h.outcomes[step.write]
               then h'.released == Due(m, steps, j) && h'.queue == []
               else h'.released == h.released
  {
    hide Run, Legal, Chained, Logged, Dispatched, EventsOf, Due;
    DeferredSending(m, steps, j);
    Reachable(m, steps);
    var s := Run(m, START, steps);
    var h := s.handlers[steps[j].hid];
    assert HandlerOk(m, s, steps[j].hid);
    if step.Transit? {
      FireExtends(m, s.handlers[step.hid], step.event);
    } else if step.Resume? {
      SettleExtends(s.handlers[step.hid], step.write);
    }
  }

  /**
   * A write that reaches the database succeeds exactly if the record is absent or still has the version read, and then
   * stores its state under the next version; otherwise, or if it is lost on the way, the database stays as it is.
   */
  lemma WriteDecided(m: Machine, steps: seq<Step>, step: Step)
    requires Legal(m, START, steps) && (step.Reach? || step.Lose?) && Enabled(Run(m, START, steps), step)
    ensures var s := Run(m, START, steps);
            var s', h := Do(m, s, step), s.handlers[step.hid];
            var k := |h.outcomes|;
            && k < |h.writes|
            && var ok := step.Reach? && (h.conv !in s.docs || s.docs[h.conv].version == h.base + k);
               && s'.handlers == s.handlers[step.hid := h.(outcomes := h.outcomes + [ok])]
               && s'.docs == if ok then s.docs[h.conv := Record(h.base + k + 1, h.writes[k].state)] else s.docs
  {
    hide Run, Legal, Deferred, Logged;
    Reachable(m, steps);
    var s := Run(m, START, steps);
    var h := s.handlers[step.hid];
    assert HandlerOk(m, s, step.hid);
    assert WriteIsStep(m, h, |h.outcomes|);
  }

  lemma {:induction false} SettledStays(m: Machine, s: System, steps: seq<Step>, hid: nat, k: nat)
    requires Legal(m, s, steps) && hid in s.handlers && k in s.handlers[hid].settled
    ensures forall i :: 0 <= i < |steps| ==> steps[i] != Resume(hid, k)
    decreases |steps|
  {
    if steps != [] {
      SettledStays(m, Do(m, s, steps[0]), steps[1..], hid, k);
    }
  }

  /** The continuation of a write runs at most once. */
  lemma ResumedOnce(m: Machine, steps: seq<Step>, a: nat, b: nat)
    requires Legal(m, START, steps) && a < |steps| && b < |steps| && steps[a].Resume? && steps[a] == steps[b]
    ensures a == b
  {
    hide Run, Legal;
    var i, j := if a < b then a else b, if a < b then b else a;
    RunSplit(m, START, steps, i);
    var before, rest := Run(m, START, steps[..i]), steps[i..];
    Unfold(m, before, rest);
    if i < j {
      assert rest[1..][j - i - 1] == steps[j];
      SettledStays(m, Do(m, before, rest[0]), rest[1..], steps[i].hid, steps[i].write);
    }
  }

  // ---------------------------------------------------------------- what the protocol does not guarantee

  /** A run from a list of states that follow each other. */
  lemma {:induction false} RunThrough(m: Machine, steps: seq<Step>, states: seq<System>)
    requires |states| == |steps| + 1
    requires forall k :: 0 <= k < |steps| ==>
               Enabled(states[k], steps[k]) && Do(m, states[k], steps[k]) == states[k + 1]
    ensures Legal(m, states[0], steps) && Run(m, states[0], steps) == states[|steps|]
    decreases |steps|
  {
    hide Do, Enabled;
    if steps != [] {
      assert forall k :: 0 <= k < |steps| - 1 ==> steps[1..][k] == steps[k + 1] && states[1..][k] == states[k + 1];
      RunThrough(m, steps[1..], states[1..]);
    }
  }

  /** A machine that appends each event to its state and dispatches the event as a command. */
  function Recorder(): Machine {
    Machine("", _ => false, (s: State, e: Event) => Turn(s + e, true, [e]))
  }

  /** A handler of that machine that read no record, after at most two events, with the outcomes its writes have had. */
  function Racer(outcomes: seq<bool>, events: seq<Event>): Handler
    requires |events| <= 2
  {
    var idle := Handler("c", true, 0, "", 0, "", [], outcomes, {}, [], [], []);
    if events == [] then idle
    else
      var first := Write(0, events[0], "", events[0]);
      if |events| == 1 then
        idle.(counter := 1, current := events[0], writes := [first], queue := events, enqueued := events)
      else
        var both := events[0] + events[1];
        idle.(counter := 2, current := both, writes := [first, Write(1, events[1], events[0], both)],
              queue := events, enqueued := events)
  }

  lemma RacerOpens(docs: Docs)
    requires "c" !in docs
    ensures Open(Recorder(), docs, "c") == Racer([], [])
  {
  }

  lemma RacerFires(outcomes: seq<bool>, events: seq<Event>, event: Event)
    requires |events| <= 1
    ensures Racer(outcomes, events).running
    ensures Fire(Recorder(), Racer(outcomes, events), event) == Racer(outcomes, events + [event])
  {
    assert "" + event == event;
  }

  /** Handlers 0 and 1 both read nothing; 0 stores first; 1 fails, goes on, and overwrites what 0 stored. */
  function LostUpdateRun(): seq<Step> {
    [Begin(0, "c"), Begin(1, "c"), Transit(0, "a"), Transit(1, "x"), Transit(1, "y"), Reach(0), Reach(1), Reach(1)]
  }

  /** The two racers, before and after anything is stored. */
  function Race(docs: Docs, log: seq<Entry>, zero: Handler, one: Handler): System {
    System(docs, if log == [] then map[] else map["c" := log], map[0 := zero, 1 := one])
  }

  lemma Opening()
    ensures var m := Recorder();
            && Legal(m, START, LostUpdateRun()[..5])
            && Run(m, START, LostUpdateRun()[..5]) == Race(map[], [], Racer([], ["a"]), Racer([], ["x", "y"]))
  {
    hide Open, Fire, Racer;
    var m, steps := Recorder(), LostUpdateRun()[..5];
    RacerOpens(map[]);
    RacerFires([], [], "a");
    RacerFires([], [], "x");
    RacerFires([], ["x"], "y");
    assert [] + ["a"] == ["a"] && [] + ["x"] == ["x"] && ["x"] + ["y"] == ["x", "y"];
    var a, x := Racer([], ["a"]), Racer([], ["x"]);
    var none := Racer([], []);
    var states := [START, System(map[], map[], map[0 := none]), Race(map[], [], none, none), Race(map[], [], a, none),
                   Race(map[], [], a, x), Race(map[], [], a, Racer([], ["x", "y"]))];
    RunThrough(m, steps, states);
  }

  lemma ZeroStores()
    ensures var from := Race(map[], [], Racer([], ["a"]), Racer([], ["x", "y"]));
            && Enabled(from, Reach(0))
            && ReachStep(from, 0)
               == Race(map["c" := Record(1, "a")], [Entry(0, 0, "a")], Racer([true], ["a"]), Racer([], ["x", "y"]))
  {
    var from := Race(map[], [], Racer([], ["a"]), Racer([], ["x", "y"]));
    var s := ReachStep(from, 0);
    assert s.docs == map["c" := Record(1, "a")];
    assert s.history == map["c" := [] + [Entry(0, 0, "a")]] && [] + [Entry(0, 0, "a")] == [Entry(0, 0, "a")];
    assert [] + [true] == [true];
    assert s.handlers == map[0 := Racer([true], ["a"]), 1 := Racer([], ["x", "y"])];
  }

  lemma OneFails(docs: Docs, log: seq<Entry>, zero: Handler)
    requires docs == map["c" := Record(1, "a")]
    ensures var from := Race(docs, log, zero, Racer([], ["x", "y"]));
            Enabled(from, Reach(1)) && ReachStep(from, 1) == Race(docs, log, zero, Racer([false], ["x", "y"]))
  {
    var from := Race(docs, log, zero, Racer([], ["x", "y"]));
    assert [] + [false] == [false];
    assert ReachStep(from, 1).handlers == map[0 := zero, 1 := Racer([false], ["x", "y"])];
  }

  lemma OneOverwrites(docs: Docs, zero: Handler)
    requires docs == map["c" := Record(1, "a")]
    ensures var from := Race(docs, [Entry(0, 0, "a")], zero, Racer([false], ["x", "y"]));
            && Enabled(from, Reach(1))
            && ReachStep(from, 1)
               == Race(map["c" := Record(2, "xy")], [Entry(0, 0, "a"), Entry(1, 1, "xy")], zero,
                       Racer([false, true], ["x", "y"]))
  {
    var from := Race(docs, [Entry(0, 0, "a")], zero, Racer([false], ["x", "y"]));
    var s := ReachStep(from, 1);
    assert "x" + "y" == "xy";
    assert s.docs == map["c" := Record(2, "xy")];
    assert [Entry(0, 0, "a")] + [Entry(1, 1, "xy")] == [Entry(0, 0, "a"), Entry(1, 1, "xy")];
    assert s.history == map["c" := [Entry(0, 0, "a"), Entry(1, 1, "xy")]];
    assert [false] + [true] == [false, true];
    assert s.handlers == map[0 := zero, 1 := Racer([false, true], ["x", "y"])];
  }

  lemma Writing()
    ensures var m := Recorder();
            var from := Race(map[], [], Racer([], ["a"]), Racer([], ["x", "y"]));
            && Legal(m, from, [Reach(0), Reach(1), Reach(1)])
            && Run(m, from, [Reach(0), Reach(1), Reach(1)])
               == Race(map["c" := Record(2, "xy")], [Entry(0, 0, "a"), Entry(1, 1, "xy")],
                       Racer([true], ["a"]), Racer([false, true], ["x", "y"]))
  {
    hide Racer, Race, ReachStep, Recorder;
    var m, steps := Recorder(), [Reach(0), Reach(1), Reach(1)];
    var zero, one, docs := Racer([true], ["a"]), Racer([false], ["x", "y"]), map["c" := Record(1, "a")];
    var first := [Entry(0, 0, "a")];
    ZeroStores();
    OneFails(docs, first, zero);
    OneOverwrites(docs, zero);
    var states := [Race(map[], [], Racer([], ["a"]), Racer([], ["x", "y"])),
                   Race(docs, first, zero, Racer([], ["x", "y"])), Race(docs, first, zero, one),
                   Race(map["c" := Record(2, "xy")], [Entry(0, 0, "a"), Entry(1, 1, "xy")], zero,
                        Racer([false, true], ["x", "y"]))];
    RunThrough(m, steps, states);
  }

  lemma {:induction false} RunConcat(m: Machine, s: System, first: seq<Step>, second: seq<Step>)
    requires Legal(m, s, first) && Legal(m, Run(m, s, first), second)
    ensures Legal(m, s, first + second) && Run(m, s, first + second) == Run(m, Run(m, s, first), second)
    decreases |first|
  {
    hide Do, Enabled;
    if first == [] {
      assert first + second == second;
    } else {
      assert (first + second)[1..] == first[1..] + second;
      RunConcat(m, Do(m, s, first[0]), first[1..], second);
    }
  }

  lemma LostUpdate()
    ensures Legal(Recorder(), START, LostUpdateRun())
    ensures var s := Run(Recorder(), START, LostUpdateRun());
            s.Log("c") == [Entry(0, 0, "a"), Entry(1, 1, "xy")] && s.docs["c"] == Record(2, "xy")
  {
    hide Do, Enabled, Racer, Run, Legal, Recorder;
    Opening();
    Writing();
    RunConcat(Recorder(), START, LostUpdateRun()[..5], [Reach(0), Reach(1), Reach(1)]);
    assert LostUpdateRun()[..5] + [Reach(0), Reach(1), Reach(1)] == LostUpdateRun();
  }

  function Alone(h: Handler): System {
    System(map[], map[], map[0 := h])
  }

  lemma RacerLoses()
    ensures var from := Alone(Racer([], ["a", "b"]));
            Enabled(from, Lose(0)) && LoseStep(from, 0) == Alone(Racer([false], ["a", "b"]))
  {
    assert [] + [false] == [false];
  }

  lemma RacerInserts()
    ensures var from := Alone(Racer([false], ["a", "b"]));
            && Enabled(from, Reach(0))
            && ReachStep(from, 0) == System(map["c" := Record(2, "ab")], map["c" := [Entry(0, 1, "ab")]],
                                            map[0 := Racer([false, true], ["a", "b"])])
  {
    var s := ReachStep(Alone(Racer([false], ["a", "b"])), 0);
    assert "a" + "b" == "ab" && [] + [Entry(0, 1, "ab")] == [Entry(0, 1, "ab")] && [false] + [true] == [false, true];
    assert s.docs == map["c" := Record(2, "ab")] && s.history == map["c" := [Entry(0, 1, "ab")]];
    assert s.handlers == map[0 := Racer([false, true], ["a", "b"])];
  }

  /** A single handler whose first write is lost stores its second one under version 2. */
  lemma LostFirstWrite()
    ensures var m := Recorder();
            var steps := [Begin(0, "c"), Transit(0, "a"), Transit(0, "b"), Lose(0), Reach(0)];
            && Legal(m, START, steps)
            && Run(m, START, steps).docs == map["c" := Record(2, "ab")] && |Run(m, START, steps).Log("c")| == 1
  {
    hide Open, Fire, Racer, ReachStep;
    var m, steps := Recorder(), [Begin(0, "c"), Transit(0, "a"), Transit(0, "b"), Lose(0), Reach(0)];
    RacerOpens(map[]);
    RacerFires([], [], "a");
    RacerFires([], ["a"], "b");
    assert [] + ["a"] == ["a"] && ["a"] + ["b"] == ["a", "b"];
    RacerLoses();
    RacerInserts();
    var states := [START, Alone(Racer([], [])), Alone(Racer([], ["a"])), Alone(Racer([], ["a", "b"])),
                   Alone(Racer([false], ["a", "b"])),
                   System(map["c" := Record(2, "ab")], map["c" := [Entry(0, 1, "ab")]],
                          map[0 := Racer([false, true], ["a", "b"])])];
    RunThrough(m, steps, states);
  }
}
