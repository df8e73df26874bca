/**
 * The session registry of the chat endpoint (`chat_engines`), as a value.
 *
 * The registry maps a conversation id to a session {engine, last_active}.
 * It is a Python dict, so its keys also have an order: the order of
 * insertion. Updating an entry in place keeps its position; deleting a key
 * and inserting it again puts it at the end. `order` records that order.
 *
 * Every request runs the same steps on the registry: an expire pass, a
 * capacity pass, create-if-missing and a touch. The functions below state
 * each step; the class in ChatEndpoint performs them in place and is
 * proved to agree with them.
 */
module Sessions {
  import opened Wrappers

  type Key = string

  /**
   * An engine handle is opaque. The model names each engine by the number
   * of the factory call that built it, so that two engines can be told apart.
   */
  type EngineId = nat

  const MAX_SESSIONS: nat := 50
  const INACTIVITY_TIMEOUT: int := 60 * 60

  datatype Session = Session(engine: EngineId, lastActive: int)

  /** Keys in insertion order, the table itself, and the number of factory calls so far. */
  datatype Registry = Registry(order: seq<Key>, table: map<Key, Session>, factoryCalls: nat)

  predicate NoDuplicates(xs: seq<Key>) {
    forall p, q :: 0 <= p < q < |xs| ==> xs[p] != xs[q]
  }

  /**
   * The registry invariant: `order` lists each key of the table once, every
   * engine came from an earlier factory call, and no engine is shared by two
   * conversations.
   */
  ghost predicate Valid(r: Registry) {
    && NoDuplicates(r.order)
    && (forall k :: k in r.order <==> k in r.table)
    && (forall k :: k in r.table ==> r.table[k].engine < r.factoryCalls)
    && (forall k1, k2 :: k1 in r.table && k2 in r.table && k1 != k2 ==>
          r.table[k1].engine != r.table[k2].engine)
  }

  function Empty(): (r: Registry)
    ensures Valid(r) && |r.table| == 0
  {
    Registry([], map[], 0)
  }

  /** A session is stale when it has been idle for longer than the timeout. */
  predicate IsStale(s: Session, now: int) {
    now - s.lastActive > INACTIVITY_TIMEOUT
  }

  /** `xs` with the keys in `gone` deleted, the others in their order. */
  function Without(xs: seq<Key>, gone: set<Key>): (r: seq<Key>)
    ensures forall k :: k in r <==> k in xs && k !in gone
    ensures |r| <= |xs|
    ensures NoDuplicates(xs) ==> NoDuplicates(r)
  {
    if xs == [] then []
    else
      var rest := Without(xs[1..], gone);
      assert NoDuplicates(xs) ==> xs[0] !in xs[1..];
      if xs[0] in gone then rest else [xs[0]] + rest
  }

  lemma WithoutNothing(xs: seq<Key>)
    ensures Without(xs, {}) == xs
  {
  }

  /**
   * Deletion keeps the survivors in their order: deleting from a
   * concatenation deletes from each part and keeps the parts in order.
   */
  lemma {:induction false} WithoutAppend(xs: seq<Key>, ys: seq<Key>, gone: set<Key>)
    ensures Without(xs + ys, gone) == Without(xs, gone) + Without(ys, gone)
  {
    if xs == [] {
      assert xs + ys == ys;
    } else {
      assert (xs + ys)[1..] == xs[1..] + ys;
      WithoutAppend(xs[1..], ys, gone);
    }
  }

  /** Deleting one set of keys and then another deletes both at once. */
  lemma {:induction false} WithoutTwice(xs: seq<Key>, a: set<Key>, b: set<Key>)
    ensures Without(Without(xs, a), b) == Without(xs, a + b)
  {
    if xs != [] {
      WithoutTwice(xs[1..], a, b);
      if xs[0] !in a {
        assert Without(xs, a) == [xs[0]] + Without(xs[1..], a);
        assert ([xs[0]] + Without(xs[1..], a))[1..] == Without(xs[1..], a);
      }
    }
  }

  // ---------------------------------------------------------------------
  // Expire pass
  // ---------------------------------------------------------------------

  function StaleKeys(table: map<Key, Session>, now: int): set<Key> {
    set k | k in table && IsStale(table[k], now)
  }

  /**
   * The expire pass: every stale entry is deleted; the others are kept
   * with their values and their order.
   */
  function Expire(r: Registry, now: int): (r': Registry)
    ensures forall k :: k in r'.table <==> k in r.table && !IsStale(r.table[k], now)
    ensures forall k :: k in r'.table ==> r'.table[k] == r.table[k]
    ensures r'.factoryCalls == r.factoryCalls
    ensures Valid(r) ==> Valid(r')
    ensures |r'.table| <= |r.table|
  {
    var gone := StaleKeys(r.table, now);
    var r' := Registry(Without(r.order, gone), r.table - gone, r.factoryCalls);
    assert r'.table.Keys <= r.table.Keys;
    SubsetSize(r'.table.Keys, r.table.Keys);
    r'
  }

  /** The keys listed in `xs`. */
  function KeySet(xs: seq<Key>): (ks: set<Key>)
    ensures forall k :: k in ks <==> k in xs
  {
    if |xs| == 0 then {} else KeySet(xs[..|xs| - 1]) + {xs[|xs| - 1]}
  }

  /**
   * `r` is `start` after deleting the keys in `removed` one by one: exactly
   * those keys are gone, from the table and from the order, and the rest is
   * untouched.
   */
  ghost predicate DeletedFrom(r: Registry, start: Registry, removed: set<Key>) {
    && Valid(r)
    && r.order == Without(start.order, removed)
    && (forall x :: x in r.table <==> x in start.table && x !in removed)
    && (forall x :: x in r.table ==> r.table[x] == start.table[x])
    && r.factoryCalls == start.factoryCalls
  }

  lemma DeletedFromNothing(start: Registry)
    requires Valid(start)
    ensures DeletedFrom(start, start, {})
  {
    WithoutNothing(start.order);
  }

  /** Deleting one more key extends the set of deleted keys by it. */
  lemma DeletedFromStep(r: Registry, start: Registry, removed: set<Key>, k: Key)
    requires DeletedFrom(r, start, removed) && k in r.table
    ensures DeletedFrom(Remove(r, k), start, removed + {k})
  {
    WithoutTwice(start.order, removed, {k});
  }

  /** Deleting every stale key, one by one, is the expire pass. */
  lemma DeletedStaleIsExpire(r: Registry, start: Registry, now: int)
    requires DeletedFrom(r, start, StaleKeys(start.table, now))
    ensures r == Expire(start, now)
  {
    var gone := StaleKeys(start.table, now);
    assert r.table.Keys == (start.table - gone).Keys;
    assert r.table == start.table - gone;
  }

  lemma {:induction false} SubsetSize<T>(a: set<T>, b: set<T>)
    requires a <= b
    ensures |a| <= |b|
    decreases |b|
  {
    if a != {} {
      var x :| x in a;
      SubsetSize(a - {x}, b - {x});
    }
  }

  // ---------------------------------------------------------------------
  // Capacity pass
  // ---------------------------------------------------------------------

  /**
   * The entry the capacity pass picks by smallest `last_active`. Python's
   * `min` keeps the first of several equal minima, so this is the index, in
   * insertion order, of the first entry with the smallest `last_active`.
   */
  function OldestIndex(xs: seq<Key>, table: map<Key, Session>): (p: nat)
    requires |xs| > 0 && forall k :: k in xs ==> k in table
    ensures p < |xs|
    ensures forall q :: 0 <= q < |xs| ==> table[xs[p]].lastActive <= table[xs[q]].lastActive
    ensures forall q :: 0 <= q < p ==> table[xs[p]].lastActive < table[xs[q]].lastActive
  {
    if |xs| == 1 then 0
    else
      var p := OldestIndex(xs[..|xs| - 1], table);
      if table[xs[|xs| - 1]].lastActive < table[xs[p]].lastActive then |xs| - 1 else p
  }

  /** Extending the list by one key: the new key wins only if strictly older. */
  lemma OldestIndexStep(xs: seq<Key>, table: map<Key, Session>, i: nat)
    requires 0 < i < |xs| && forall k :: k in xs ==> k in table
    ensures OldestIndex(xs[..i + 1], table) ==
      var p := OldestIndex(xs[..i], table);
      if table[xs[i]].lastActive < table[xs[p]].lastActive then i else p
  {
    assert xs[..i + 1][..i] == xs[..i];
  }

  /** A non-empty table has a non-empty order. */
  lemma NonEmptyOrder(r: Registry)
    requires Valid(r) && |r.table| > 0
    ensures |r.order| > 0
  {
  }

  /** The entry the capacity pass deletes, when it deletes one. */
  function Victim(r: Registry): (k: Key)
    requires Valid(r) && |r.table| > 0
    ensures k in r.table
  {
    NonEmptyOrder(r);
    r.order[OldestIndex(r.order, r.table)]
  }

  /** Deletes one key from the table and from the order. */
  function Remove(r: Registry, k: Key): (r': Registry)
    requires Valid(r) && k in r.table
    ensures Valid(r')
    ensures r'.table == r.table - {k} && |r'.table| == |r.table| - 1
  {
    var r' := Registry(Without(r.order, {k}), r.table - {k}, r.factoryCalls);
    assert r'.table.Keys == r.table.Keys - {k};
    r'
  }

  /** Whether the capacity pass deletes an entry. */
  predicate MustEvict(r: Registry, key: Key) {
    |r.table| >= MAX_SESSIONS && key !in r.table
  }

  /** The capacity pass. */
  function MakeRoom(r: Registry, key: Key): (r': Registry)
    requires Valid(r)
    ensures Valid(r')
    ensures r'.factoryCalls == r.factoryCalls
    ensures key in r'.table <==> key in r.table
    ensures |r'.table| == if MustEvict(r, key) then |r.table| - 1 else |r.table|
  {
    if MustEvict(r, key) then Remove(r, Victim(r)) else r
  }

  // ---------------------------------------------------------------------
  // Create-if-missing and touch
  // ---------------------------------------------------------------------

  /** Stamps the session of a present key as active at `now`. */
  function Touch(r: Registry, key: Key, now: int): (r': Registry)
    requires Valid(r) && key in r.table
    ensures Valid(r')
    ensures |r'.table| == |r.table|
  {
    assert r.table[key := r.table[key].(lastActive := now)].Keys == r.table.Keys;
    r.(table := r.table[key := r.table[key].(lastActive := now)])
  }

  /**
   * Inserts a session for an absent key with a freshly built engine: the
   * key goes to the end of the order.
   */
  function Create(r: Registry, key: Key, now: int): (r': Registry)
    requires Valid(r) && key !in r.table
    ensures Valid(r')
    ensures r'.order == r.order + [key]
    ensures r'.table[key] == Session(r.factoryCalls, now)
    ensures forall k :: k in r.table ==> k in r'.table && r'.table[k] == r.table[k]
    ensures |r'.table| == |r.table| + 1
  {
    AppendKeepsValid(r, key, Session(r.factoryCalls, now));
    Registry(r.order + [key], r.table[key := Session(r.factoryCalls, now)], r.factoryCalls + 1)
  }

  lemma AppendKeepsValid(r: Registry, key: Key, session: Session)
    requires Valid(r) && key !in r.table && session.engine == r.factoryCalls
    ensures Valid(Registry(r.order + [key], r.table[key := session], r.factoryCalls + 1))
    ensures |r.table[key := session]| == |r.table| + 1
  {
    assert key !in r.order;
    assert r.table[key := session].Keys == r.table.Keys + {key};
  }

  /** What the registry steps of one request leave behind. */
  datatype Step = Step(registry: Registry, engine: Option<EngineId>)

  /**
   * The registry steps of one request for `key` at time `now`. When
   * `setupFails`, the factory call for a missing key raises: nothing is
   * inserted and no engine is returned.
   */
  function Resolve(r: Registry, key: Key, now: int, setupFails: bool): (s: Step)
    requires Valid(r)
    ensures Valid(s.registry)
  {
    Admit(MakeRoom(Expire(r, now), key), key, now, setupFails)
  }

  /** Create-if-missing, then touch, after the expire and capacity passes. */
  function Admit(roomy: Registry, key: Key, now: int, setupFails: bool): (s: Step)
    requires Valid(roomy)
    ensures Valid(s.registry)
  {
    if key in roomy.table then
      Step(Touch(roomy, key, now), Some(roomy.table[key].engine))
    else if setupFails then
      Step(roomy.(factoryCalls := roomy.factoryCalls + 1), None)
    else
      Step(Create(roomy, key, now), Some(roomy.factoryCalls))
  }

  // ---------------------------------------------------------------------
  // Properties of one request
  // ---------------------------------------------------------------------

  /**
   * After the expire pass no entry is stale, and every entry that was not
   * stale (at the timeout exactly, or younger) is still there, unchanged.
   */
  lemma ExpireKeepsExactlyTheLive(r: Registry, now: int)
    ensures forall k :: k in Expire(r, now).table ==> !IsStale(Expire(r, now).table[k], now)
    ensures forall k :: k in r.table && now - r.table[k].lastActive <= INACTIVITY_TIMEOUT ==>
      k in Expire(r, now).table && Expire(r, now).table[k] == r.table[k]
  {
  }

  /**
   * The capacity pass deletes exactly one entry when the table is full and
   * the key is absent, and nothing otherwise. The entry it deletes is the
   * one at `OldestIndex`: by that function's contract it has the smallest
   * `last_active`, and every entry inserted before it is strictly more recent.
   */
  lemma CapacityPassEvictsOldest(r: Registry, key: Key)
    requires Valid(r)
    ensures !MustEvict(r, key) ==> MakeRoom(r, key) == r
    ensures MustEvict(r, key) ==>
      |r.order| > 0 && MakeRoom(r, key).table == r.table - {r.order[OldestIndex(r.order, r.table)]}
  {
    if MustEvict(r, key) {
      NonEmptyOrder(r);
    }
  }

  /**
   * Capacity: a registry that holds at most MAX_SESSIONS entries before a
   * request holds at most MAX_SESSIONS after it, whatever the factory does.
   */
  lemma ResolveKeepsCapacity(r: Registry, key: Key, now: int, setupFails: bool)
    requires Valid(r) && |r.table| <= MAX_SESSIONS
    ensures |Resolve(r, key, now, setupFails).registry.table| <= MAX_SESSIONS
  {
    var expired := Expire(r, now);
    var roomy := MakeRoom(expired, key);
    assert |roomy.table| <= |expired.table| <= |r.table|;
    if key !in roomy.table {
      assert key !in expired.table;
      assert |roomy.table| < MAX_SESSIONS;
    }
  }

  /**
   * A new key at full capacity costs exactly one eviction: the registry
   * ends the request with as many entries as it had after the expire pass.
   */
  lemma NewKeyAtCapacityEvictsOne(r: Registry, key: Key, now: int)
    requires Valid(r)
    requires |Expire(r, now).table| == MAX_SESSIONS && key !in Expire(r, now).table
    ensures |Resolve(r, key, now, false).registry.table| == MAX_SESSIONS
    ensures key in Resolve(r, key, now, false).registry.table
  {
    var roomy := MakeRoom(Expire(r, now), key);
    assert MustEvict(Expire(r, now), key);
    assert |roomy.table| == MAX_SESSIONS - 1;
    assert key !in roomy.table;
  }

  /**
   * A key still present after the expire pass keeps its engine: no factory
   * call, no capacity eviction, and only its `last_active` changes (to
   * `now`). Every other surviving entry, and the key order, are unchanged.
   */
  lemma LiveKeyIsReused(r: Registry, key: Key, now: int, setupFails: bool)
    requires Valid(r)
    requires key in Expire(r, now).table
    ensures var s := Resolve(r, key, now, setupFails);
      && s.engine == Some(r.table[key].engine)
      && s.registry.factoryCalls == r.factoryCalls
      && s.registry.order == Expire(r, now).order
      && s.registry.table == Expire(r, now).table[key := Session(r.table[key].engine, now)]
  {
  }

  /**
   * After the registry steps the key is present with `last_active == now`
   * and holds the engine the request uses, unless the factory raised; the
   * factory is called exactly when the key was absent after the expire pass.
   */
  lemma ResolveStampsKey(r: Registry, key: Key, now: int, setupFails: bool)
    requires Valid(r)
    ensures var s := Resolve(r, key, now, setupFails);
      && s.registry.factoryCalls ==
           r.factoryCalls + (if key in Expire(r, now).table then 0 else 1)
      && (s.engine.Some? <==> key in Expire(r, now).table || !setupFails)
      && (s.engine.Some? ==> key in s.registry.table &&
                             s.registry.table[key] == Session(s.engine.value, now))
  {
    AdmitStampsKey(MakeRoom(Expire(r, now), key), key, now, setupFails);
  }

  lemma AdmitStampsKey(roomy: Registry, key: Key, now: int, setupFails: bool)
    requires Valid(roomy)
    ensures var s := Admit(roomy, key, now, setupFails);
      && s.registry.factoryCalls == roomy.factoryCalls + (if key in roomy.table then 0 else 1)
      && (s.engine.Some? <==> key in roomy.table || !setupFails)
      && (s.engine.Some? ==> key in s.registry.table &&
                             s.registry.table[key] == Session(s.engine.value, now))
  {
  }

  /**
   * A freshly built engine is not shared: it differs from the engine of
   * every other conversation left in the registry.
   */
  lemma NewEngineIsUnshared(r: Registry, key: Key, now: int)
    requires Valid(r) && key !in Expire(r, now).table
    ensures var s := Resolve(r, key, now, false);
      s.engine.Some? &&
      forall k :: k in s.registry.table && k != key ==> s.registry.table[k].engine != s.engine.value
  {
    CreatedEngineIsFresh(MakeRoom(Expire(r, now), key), key, now);
  }

  lemma CreatedEngineIsFresh(roomy: Registry, key: Key, now: int)
    requires Valid(roomy) && key !in roomy.table
    ensures var r' := Create(roomy, key, now);
      r'.table[key].engine == roomy.factoryCalls &&
      forall k :: k in r'.table && k != key ==> r'.table[k].engine != roomy.factoryCalls
  {
  }

  /**
   * If the factory raises, no entry is inserted for the key, although the
   * expire and capacity passes have already taken effect.
   */
  lemma SetupFailureLeavesNoEntry(r: Registry, key: Key, now: int)
    requires Valid(r) && key !in Expire(r, now).table
    ensures var s := Resolve(r, key, now, true);
      && s.engine.None?
      && key !in s.registry.table
      && s.registry.table == MakeRoom(Expire(r, now), key).table
      && s.registry.order == MakeRoom(Expire(r, now), key).order
  {
  }
}
