/**
 * The objects of the onboarding skill: command collector, deferred dispatcher, database client and the running
 * `applyEvent` call. Each method is tied to the step of `SkillProtocol` that it performs.
 */
module SkillRuntime {
  import opened JsStrings
  import opened SkillProtocol

  /** CommandCollector: a first-in first-out list. */
  class CommandCollector {
    var commands: seq<Command>

    constructor ()
      ensures commands == []
    {
      commands := [];
    }

    method Add(command: Command)
      modifies this
      ensures commands == old(commands) + [command]
    {
      commands := commands + [command];
    }

    method Pop() returns (command: Option<Command>)
      modifies this
      ensures old(commands) == [] ==> command == None && commands == []
      ensures old(commands) != [] ==> command == Some(old(commands)[0]) && commands == old(commands)[1..]
    {
      if commands == [] {
        return None;
      }
      command := Some(commands[0]);
      commands := commands[1..];
    }
  }

  /** MessageDispatcherDeferredWrapper: methods collect their call, `commit` performs the calls. */
  class DeferredDispatcher {
    const commandCollector: CommandCollector
    /** The calls the wrapped dispatcher has received. */
    var performed: seq<Command>

    constructor ()
      ensures fresh(commandCollector) && commandCollector.commands == [] && performed == []
    {
      commandCollector := new CommandCollector();
      performed := [];
    }

    method Call(command: Command)
      modifies commandCollector
      ensures commandCollector.commands == old(commandCollector.commands) + [command]
    {
      commandCollector.Add(command);
    }

    method Interpret(command: Command)
      modifies this
      ensures performed == old(performed) + [command]
    {
      performed := performed + [command];
    }

    /** Drains the collector: every collected call is performed, once and in order. */
    method Commit()
      modifies this, commandCollector
      ensures commandCollector.commands == []
      ensures performed == old(performed) + old(commandCollector.commands)
    {
      var c := commandCollector.Pop();
      while c.Some?
        invariant performed + (if c.Some? then [c.value] else []) + commandCollector.commands
               == old(performed) + old(commandCollector.commands)
        invariant c.None? ==> commandCollector.commands == []
        decreases |commandCollector.commands| + (if c.Some? then 1 else 0)
      {
        Interpret(c.value);
        c := commandCollector.Pop();
      }
    }
  }

  datatype DbError = NotConnected | DuplicateKey

  /** SimpleMongoDbClient over one collection of state records. */
  class SimpleMongoDbClient {
    var connected: bool
    var db: bool
    var collection: Docs

    constructor (collection: Docs)
      ensures !connected && !db && this.collection == collection
    {
      connected, db := false, false;
      this.collection := collection;
    }

    method Connect()
      modifies this
      ensures connected && collection == old(collection) && (db <==> old(db) || !old(connected))
    {
      if !connected {
        connected := true;
        db := true;
      }
    }

    method GetOneByKey(id: Id) returns (r: Result<Option<Record>, DbError>)
      ensures !db ==> r == Err(NotConnected)
      ensures db ==> r == Ok(if id in collection then Some(collection[id]) else None)
    {
      if !db {
        return Err(NotConnected);
      }
      r := Ok(if id in collection then Some(collection[id]) else None);
    }

    /** `update` with version increment and upsert. */
    method Update(id: Id, version: nat, state: State) returns (r: Result<(), DbError>)
      modifies this`collection
      ensures !db ==> r == Err(NotConnected) && collection == old(collection)
      ensures db ==> collection == Upsert(old(collection), id, version, state).0
      ensures db ==> r == if Upsert(old(collection), id, version, state).1 then Ok(()) else Err(DuplicateKey)
    {
      if !db {
        return Err(NotConnected);
      }
      if id in collection && collection[id].version == version {
        collection := collection[id := Record(collection[id].version + 1, state)];
        return Ok(());
      }
      if id !in collection {
        collection := collection[id := Record(version + 1, state)];
        return Ok(());
      }
      r := Err(DuplicateKey);
    }
  }

  /** One running `applyEvent` call. */
  class ApplyEvent {
    const m: Machine
    const conversationId: Id
    const deferredMessageDispatcher: DeferredDispatcher
    var running: bool
    var versionCounter: nat
    var current: State
    var issued: seq<Write>
    var outcomes: seq<bool>
    var settled: set<nat>
    ghost const base: nat
    ghost const loaded: State
    ghost var enqueued: seq<Command>

    /** The handler of the protocol that this call is. */
    ghost function Abs(): Handler
      reads this, deferredMessageDispatcher, deferredMessageDispatcher.commandCollector
    {
      Handler(conversationId, running, base, loaded, versionCounter, current, issued, outcomes, settled,
              deferredMessageDispatcher.commandCollector.commands, enqueued, deferredMessageDispatcher.performed)
    }

    ghost predicate Valid()
      reads this, deferredMessageDispatcher, deferredMessageDispatcher.commandCollector
    {
      Chained(m, Abs()) && Deferred(Abs())
    }

    /** Everything up to the registration of the transition callback, the record having been read. */
    constructor (m: Machine, conversationId: Id, previous: Option<Record>)
      ensures this.m == m && Valid()
      ensures Abs() == Open(m, if previous.Some? then map[conversationId := previous.value] else map[], conversationId)
      ensures fresh(deferredMessageDispatcher) && fresh(deferredMessageDispatcher.commandCollector)
    {
      this.m := m;
      this.conversationId := conversationId;
      deferredMessageDispatcher := new DeferredDispatcher();
      running := previous.None? || !m.closed(previous.value.state);
      base := if previous.Some? then previous.value.version else 0;
      versionCounter := if previous.Some? then previous.value.version else 0;
      current := if previous.Some? then previous.value.state else m.initial;
      loaded := if previous.Some? then previous.value.state else m.initial;
      issued, outcomes, settled, enqueued := [], [], {}, [];
    }

    /** One transition of the machine: its actions defer their messages, then the callback issues the update. */
    method OnTransition(event: Event)
      requires Valid()
      modifies this, deferredMessageDispatcher.commandCollector
      ensures Valid() && Abs() == Fire(m, old(Abs()), event)
    {
      ghost var h := Abs();
      var turn := m.step(current, event);
      ghost var queue := deferredMessageDispatcher.commandCollector.commands;
      for i := 0 to |turn.commands|
        invariant deferredMessageDispatcher.commandCollector.commands == queue + turn.commands[..i]
        invariant Abs() == h.(queue := queue + turn.commands[..i])
      {
        deferredMessageDispatcher.Call(turn.commands[i]);
      }
      assert turn.commands[..|turn.commands|] == turn.commands;
      enqueued := enqueued + turn.commands;
      FireKeepsChain(m, h, event);
      if !turn.changed {
        return;
      }
      issued := issued + [Write(versionCounter, event, current, turn.state)];
      versionCounter := versionCounter + 1;
      current := turn.state;
    }

    /**
     * The oldest undecided update is sent: it reaches the database, or fails without a connection and changes nothing.
     * In a system where this call is handler `hid`, these are the steps Reach and Lose.
     */
    method Deliver(dbClient: SimpleMongoDbClient, ghost s: System, ghost hid: nat)
      requires Valid() && HasUnapplied(Abs())
      requires hid in s.handlers && s.handlers[hid] == Abs() && s.docs == dbClient.collection
      modifies this`outcomes, dbClient`collection
      ensures Valid()
      ensures var s' := Do(m, s, if dbClient.db then Reach(hid) else Lose(hid));
              Abs() == s'.handlers[hid] && dbClient.collection == s'.docs
    {
      ghost var h := Abs();
      var w := issued[|outcomes|];
      var r := dbClient.Update(conversationId, w.version, w.state);
      outcomes := outcomes + [r.Ok?];
      DeferredAfterOutcome(h, r.Ok?);
      SameChain(m, h, Abs());
    }

    /** The continuation of the `k`-th update: commit on success, report the failure otherwise. */
    method OnUpdateDone(k: nat)
      requires Valid() && IsUnsettled(Abs(), k)
      modifies this`settled, deferredMessageDispatcher, deferredMessageDispatcher.commandCollector
      ensures Valid() && Abs() == Settle(old(Abs()), k)
    {
      SettleKeeps(m, Abs(), k);
      settled := settled + {k};
      if outcomes[k] {
        deferredMessageDispatcher.Commit();
      }
    }
  }
}
