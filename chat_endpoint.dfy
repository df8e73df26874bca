/**
 * The chat endpoint (`chat_endpoint`) over the module-level session
 * registry `chat_engines`, which it updates in place on every request.
 *
 * Each method is proved to leave the registry in the state the matching
 * function of module Sessions describes; the properties of those functions
 * are proved there.
 *
 * The engine factory and the engine's `chat` call are foreign code: whether
 * the factory raises, and what `chat` answers, are parameters.
 */
module ChatEndpoint {
  import opened Wrappers
  import opened Sessions
  import PiiMask

  /** What the engine's `chat(query)` call does. */
  datatype EngineReply = Answered(text: string) | Raised

  /** What the caller receives. */
  datatype Response =
    | Replied(reply: string)
    | HttpError(status: nat, detail: string)
    // setup_chat_engine() raised: the exception leaves the endpoint unhandled
    | SetupRaised

  /** The structured log line written on success (latency left out). */
  datatype AuditRecord = AuditRecord(conversationId: Key, userQuery: string, reply: string)

  /**
   * The scan `min` performs over the items of the registry: a later entry
   * replaces the current best only when it is strictly older.
   */
  method FirstOldest(keys: seq<Key>, entries: map<Key, Session>) returns (best: nat)
    requires |keys| > 0 && forall x :: x in keys ==> x in entries
    ensures best == OldestIndex(keys, entries)
  {
    best := 0;
    var i := 1;
    while i < |keys|
      invariant 1 <= i <= |keys|
      invariant best == OldestIndex(keys[..i], entries)
    {
      OldestIndexStep(keys, entries, i);
      if entries[keys[i]].lastActive < entries[keys[best]].lastActive {
        best := i;
      }
      i := i + 1;
    }
    assert keys[..i] == keys;
  }

  class ChatEngines {
    var order: seq<Key>
    var table: map<Key, Session>
    var factoryCalls: nat

    function State(): Registry
      reads this
    {
      Registry(order, table, factoryCalls)
    }

    ghost predicate Valid()
      reads this
    {
      Sessions.Valid(State())
    }

    constructor ()
      ensures Valid() && State() == Empty()
    {
      order, table, factoryCalls := [], map[], 0;
    }

    /** Deletes one entry of the registry in place. */
    method Delete(k: Key)
      requires Valid() && k in table
      modifies this
      ensures Valid() && State() == Remove(old(State()), k)
    {
      table := table - {k};
      order := Without(order, {k});
    }

    /**
     * The expire pass: first the stale keys are collected in insertion
     * order, then each is deleted.
     */
    method ExpireStale(now: int)
      requires Valid()
      modifies this
      ensures Valid() && State() == Expire(old(State()), now)
    {
      var stale := CollectStale(now);
      assert KeySet(stale) == StaleKeys(table, now);
      DeleteAll(stale);
      DeletedStaleIsExpire(State(), old(State()), now);
    }

    /**
     * The stale keys, collected by walking the registry in insertion order
     * and keeping each key whose session has been idle longer than the
     * timeout.
     */
    method CollectStale(now: int) returns (stale: seq<Key>)
      requires Valid()
      ensures forall k :: k in stale <==> k in table && IsStale(table[k], now)
      ensures NoDuplicates(stale)
    {
      stale := [];
      var i := 0;
      while i < |order|
        invariant 0 <= i <= |order|
        invariant forall k :: k in stale <==> k in order[..i] && IsStale(table[k], now)
        invariant NoDuplicates(stale)
      {
        var k := order[i];
        if IsStale(table[k], now) {
          stale := stale + [k];
        }
        i := i + 1;
      }
      assert order[..i] == order;
    }

    /** Deletes the collected keys one at a time, in list order. */
    method DeleteAll(keys: seq<Key>)
      requires Valid()
      requires NoDuplicates(keys) && forall k :: k in keys ==> k in table
      modifies this
      ensures DeletedFrom(State(), old(State()), KeySet(keys))
    {
      ghost var start := State();
      DeletedFromNothing(start);
      var j := 0;
      while j < |keys|
        invariant 0 <= j <= |keys|
        invariant DeletedFrom(State(), start, KeySet(keys[..j]))
      {
        var k := keys[j];
        assert keys[..j + 1][..j] == keys[..j];
        assert k !in keys[..j];
        DeletedFromStep(State(), start, KeySet(keys[..j]), k);
        Delete(k);
        j := j + 1;
      }
      assert keys[..j] == keys;
    }

    /**
     * The key of the least recently active session, picked the way Python's
     * `min` picks it: the first entry, in insertion order, with the smallest
     * `last_active`.
     */
    method OldestKey() returns (k: Key)
      requires Valid() && |table| > 0
      ensures k == Victim(State())
    {
      NonEmptyOrder(State());
      var best := FirstOldest(order, table);
      k := order[best];
    }

    /** The capacity pass. */
    method EvictForCapacity(key: Key)
      requires Valid()
      modifies this
      ensures Valid() && State() == MakeRoom(old(State()), key)
    {
      if |table| >= MAX_SESSIONS && key !in table {
        var oldest := OldestKey();
        Delete(oldest);
      }
    }

    /**
     * The registry steps of a request: expire, capacity, create-if-missing
     * and touch. Returns the engine the request uses, or None when the
     * factory raised.
     */
    method Resolve(key: Key, now: int, setupFails: bool) returns (engine: Option<EngineId>)
      requires Valid()
      modifies this
      ensures Valid()
      ensures Step(State(), engine) == Sessions.Resolve(old(State()), key, now, setupFails)
    {
      ExpireStale(now);
      EvictForCapacity(key);
      engine := CreateOrTouch(key, now, setupFails);
    }

    /** Create-if-missing, then touch. */
    method CreateOrTouch(key: Key, now: int, setupFails: bool) returns (engine: Option<EngineId>)
      requires Valid()
      modifies this
      ensures Valid()
      ensures Step(State(), engine) == Admit(old(State()), key, now, setupFails)
    {
      ghost var roomy := State();
      if key !in table {
        // setup_chat_engine()
        var id := factoryCalls;
        factoryCalls := factoryCalls + 1;
        if setupFails {
          assert State() == roomy.(factoryCalls := roomy.factoryCalls + 1);
          return None;
        }
        table := table[key := Session(id, now)];
        order := order + [key];
        assert State() == Create(roomy, key, now);
        engine := Some(id);
      } else {
        engine := Some(table[key].engine);
        table := table[key := table[key].(lastActive := now)];
        assert State() == Touch(roomy, key, now);
      }
    }

    /**
     * One request to the chat endpoint. On success the caller gets the
     * masked reply and the audit record holds only the masked query and
     * reply; if `chat` raises, the caller gets 500 "Chat error" and nothing
     * is logged as a conversation. Either way the session stays cached with
     * its touched `last_active`.
     */
    method HandleChat(key: Key, query: string, now: int, setupFails: bool, reply: EngineReply)
      returns (response: Response, audit: Option<AuditRecord>)
      requires Valid()
      modifies this
      ensures Valid()
      ensures State() == Sessions.Resolve(old(State()), key, now, setupFails).registry
      ensures Sessions.Resolve(old(State()), key, now, setupFails).engine.None? ==>
        response == SetupRaised && audit == None
      ensures Sessions.Resolve(old(State()), key, now, setupFails).engine.Some? && reply.Answered? ==>
        && response == Replied(PiiMask.MaskPii(reply.text))
        && audit == Some(AuditRecord(key, PiiMask.MaskPii(query), PiiMask.MaskPii(reply.text)))
      ensures Sessions.Resolve(old(State()), key, now, setupFails).engine.Some? && reply.Raised? ==>
        response == HttpError(500, "Chat error") && audit == None
    {
      var engine := Resolve(key, now, setupFails);
      if engine.None? {
        return SetupRaised, None;
      }
      match reply
      case Answered(text) =>
        var masked := PiiMask.MaskPii(text);
        audit := Some(AuditRecord(key, PiiMask.MaskPii(query), masked));
        response := Replied(masked);
      case Raised =>
        response := HttpError(500, "Chat error");
        audit := None;
    }
  }
}
