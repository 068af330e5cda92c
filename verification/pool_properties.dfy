/**
 * What the service pool promises its callers, proved about the functions of
 * PoolSpec (and therefore about the class, whose methods follow them).
 */
module PoolProperties {
  import opened Wrappers
  import opened PoolSpec

  /** How many teardown calls in `log` were made for `id`. */
  function CallsFor<R>(log: seq<Teardown<R>>, id: Id): nat
  {
    if log == [] then 0
    else CallsFor(log[..|log| - 1], id) + (if log[|log| - 1].id == id then 1 else 0)
  }

  lemma {:induction false} CallsForAppend<R>(a: seq<Teardown<R>>, b: seq<Teardown<R>>, id: Id)
    ensures CallsFor(a + b, id) == CallsFor(a, id) + CallsFor(b, id)
  {
    if b != [] {
      var b' := b[..|b| - 1];
      assert (a + b)[..|a + b| - 1] == a + b';
      CallsForAppend(a, b', id);
    } else {
      assert a + b == a;
    }
  }

  /** Adding several descriptors one after the other. */
  function AddAll<R, V>(s: State<R, V>, ds: seq<Descriptor<R, V>>): State<R, V>
    decreases |ds|
  {
    if ds == [] then s else AddAll(Add(s, ds[0]), ds[1..])
  }

  /** The count of entries is the number of keys enumerated, and stays within a positive `max`. */
  lemma CountWithinMax<R, V>(s: State<R, V>)
    requires Valid(s)
    ensures |s.pool| == |s.order|
    ensures s.max > 0 ==> |s.pool| <= s.max
  {
    CountIsKeys(s.order, s.pool);
  }

  /** After `add`, `get` answers the descriptor's `onAdd` unchanged, which is also what a successful `add` resolves to. */
  lemma AddThenGet<R, V>(s: State<R, V>, d: Descriptor<R, V>)
    requires d.Object?
    ensures Get(Add(s, d), d.id) == Some(d.onAdd)
    ensures Validate(d).Success? ==> Get(Add(s, d), d.id) == Some(Some(Validate(d).value))
    ensures Test(Add(s, d), d.id) == if d.onTest.Some? then Some(d.onTest.value(d.onAdd)) else None
  {
  }

  /** A null or undefined descriptor is rejected as not an object and the pool is left as it was. */
  lemma NonObjectRejected<R, V>(s: State<R, V>, d: Descriptor<R, V>)
    requires d.NonObject?
    ensures Validate(d) == Failure(InvalidObject)
    ensures Add(s, d) == s
  {
  }

  /**
   * A descriptor without `onAdd` is rejected, yet `add` goes on: the
   * replacement, the eviction and the store happen exactly as for the same
   * descriptor with a service, and `get` then answers an absent service.
   */
  lemma MissingOnAddStillStored<R, V>(s: State<R, V>, d: Descriptor<R, V>, v: R)
    requires d.Object? && d.onAdd.None?
    ensures Validate(d) == Failure(if d.plain then MissingOnAdd else InvalidObject)
    ensures Get(Add(s, d), d.id) == Some(None)
    ensures Add(s, d).order == Add(s, d.(onAdd := Some(v))).order
    ensures Add(s, d).log == Add(s, d.(onAdd := Some(v))).log
    ensures Add(s, d).pool.Keys == Add(s, d.(onAdd := Some(v))).pool.Keys
  {
  }

  /**
   * A value that is not a plain object but whose `id` is a string (an array
   * or a function carrying one) is rejected as an invalid object, yet `add` goes
   * on and leaves exactly the state a plain object with the same properties
   * would.
   */
  lemma NonPlainStillStored<R, V>(s: State<R, V>, d: Descriptor<R, V>)
    requires d.Object? && !d.plain
    ensures Validate(d) == Failure(InvalidObject)
    ensures Add(s, d) == Add(s, d.(plain := true))
    ensures Get(Add(s, d), d.id) == Some(d.onAdd)
  {
  }

  /**
   * Re-adding a present id tears the old entry down exactly once and leaves
   * one entry under the id; as the count dropped first, nothing else is
   * evicted, and the id moves to the end of the enumeration order.
   */
  lemma ReAddReplaces<R, V>(s: State<R, V>, d: Descriptor<R, V>)
    requires Valid(s) && d.Object? && d.id in s.pool
    ensures Add(s, d).log == s.log + Hook(d.id, s.pool[d.id])
    ensures CallsFor(Add(s, d).log, d.id) == CallsFor(s.log, d.id) + (if s.pool[d.id].hasDestroy then 1 else 0)
    ensures Add(s, d).order == Without(s.order, d.id) + [d.id]
    ensures Add(s, d).pool.Keys == s.pool.Keys
    ensures |Add(s, d).order| == |s.order|
    ensures forall k :: k in s.pool && k != d.id ==> Add(s, d).pool[k] == s.pool[k]
  {
    var s1 := Destroy(s, d.id);
    assert |s1.order| == |s.order| - 1;
    assert Evict(s1) == s1;
    CallsForAppend(s.log, Hook(d.id, s.pool[d.id]), d.id);
    HookCalls(d.id, s.pool[d.id], d.id);
  }

  /**
   * When the pool is full and the id is new, `add` tears down exactly the
   * first key in enumeration order, the oldest insertion, and keeps the rest.
   */
  lemma FullPoolEvictsOldest<R, V>(s: State<R, V>, d: Descriptor<R, V>)
    requires Valid(s) && d.Object? && d.id !in s.pool
    requires s.max > 0 && |s.order| >= s.max
    ensures s.order != [] && s.order[0] in s.pool
    ensures Add(s, d).order == s.order[1..] + [d.id]
    ensures Add(s, d).log == s.log + Hook(s.order[0], s.pool[s.order[0]])
    ensures s.order[0] !in Add(s, d).pool
    ensures |Add(s, d).order| == |s.order|
    ensures forall k :: k in s.pool && k != s.order[0] ==> k in Add(s, d).pool && Add(s, d).pool[k] == s.pool[k]
  {
    assert Destroy(s, d.id) == s;
  }

  /** With room to spare and a new id, `add` appends the entry and tears nothing down. */
  lemma AddWithRoom<R, V>(s: State<R, V>, d: Descriptor<R, V>)
    requires Valid(s) && d.Object? && d.id !in s.pool
    requires !(s.max > 0 && |s.order| >= s.max)
    ensures Add(s, d).order == s.order + [d.id]
    ensures Add(s, d).log == s.log
    ensures |Add(s, d).pool| == |s.pool| + 1
    ensures forall k :: k in s.pool ==> k in Add(s, d).pool && Add(s, d).pool[k] == s.pool[k]
  {
    assert Evict(Destroy(s, d.id)) == s;
  }

  /** However many descriptors are added, the count never exceeds a positive `max`. */
  lemma {:induction false} AddAllWithinMax<R, V>(s: State<R, V>, ds: seq<Descriptor<R, V>>)
    requires Valid(s)
    requires forall i :: 0 <= i < |ds| && ds[i].Object? ==> Ordinary(ds[i].id)
    ensures Valid(AddAll(s, ds))
    ensures AddAll(s, ds).max == s.max
    ensures s.max > 0 ==> |AddAll(s, ds).pool| <= s.max
    decreases |ds|
  {
    if ds != [] {
      AddKeepsValid(s, ds[0]);
      AddAllWithinMax(Add(s, ds[0]), ds[1..]);
    }
    CountWithinMax(AddAll(s, ds));
  }

  /**
   * `destroy(id)` removes the entry under `id`, with one teardown call if it
   * has a callback, and changes nothing about any other id: its entry, with
   * its teardown callback, stays as it was. On an absent id it changes
   * nothing at all; `get` of an inherited name still finds a value without
   * a service.
   */
  lemma DestroyOnlyTouchesId<R, V>(s: State<R, V>, id: Id)
    requires Valid(s)
    ensures Get(Destroy(s, id), id) == if id in InheritedNames then Some(None) else None
    ensures forall k :: k in s.pool && k != id ==> k in Destroy(s, id).pool && Destroy(s, id).pool[k] == s.pool[k]
    ensures forall k :: k != id ==> Get(Destroy(s, id), k) == Get(s, k) && Test(Destroy(s, id), k) == Test(s, k)
    ensures Destroy(s, id).order == Without(s.order, id)
    ensures Destroy(s, id).log == s.log + (if id in s.pool then Hook(id, s.pool[id]) else [])
    ensures id !in s.pool ==> Destroy(s, id) == s
  {
    if id in s.pool {
      assert Destroy(s, id).pool == s.pool - {id};
    }
  }

  /**
   * A second `destroy` of the same id changes nothing, and it finds nothing
   * (it answers `null`) unless the id is an inherited name.
   */
  lemma DestroyTwice<R, V>(s: State<R, V>, id: Id)
    ensures id !in Destroy(s, id).pool
    ensures Found(Destroy(s, id), id) <==> id in InheritedNames
    ensures Destroy(Destroy(s, id), id) == Destroy(s, id)
  {
  }

  /** A single teardown hook counts once for its own id, when there is a callback. */
  lemma HookCalls<R, V>(id: Id, e: Entry<R, V>, k: Id)
    ensures CallsFor(Hook(id, e), k) == if id == k && e.hasDestroy then 1 else 0
  {
    if e.hasDestroy {
      assert Hook(id, e)[..0] == [];
    }
  }

  /** Over a duplicate-free key list, each key with a teardown callback is called exactly once. */
  lemma {:induction false} TeardownsOncePerKey<R, V>(ids: seq<Id>, pool: map<Id, Entry<R, V>>, k: Id)
    requires Distinct(ids)
    requires forall j :: j in ids ==> j in pool
    ensures CallsFor(Teardowns(ids, pool), k) == if k in ids && pool[k].hasDestroy then 1 else 0
  {
    if ids != [] {
      var init, last := ids[..|ids| - 1], ids[|ids| - 1];
      assert ids == init + [last];
      assert last !in init;
      TeardownsOncePerKey(init, pool, k);
      CallsForAppend(Teardowns(init, pool), Hook(last, pool[last]), k);
      HookCalls(last, pool[last], k);
    }
  }

  /** Every teardown call made for a key list is for one of its keys that has a callback, with that entry's service. */
  lemma {:induction false} TeardownsServices<R, V>(ids: seq<Id>, pool: map<Id, Entry<R, V>>)
    ensures forall c :: c in Teardowns(ids, pool) ==> c.id in ids && c.id in pool && pool[c.id].hasDestroy && c.service == pool[c.id].service
  {
    if ids != [] {
      var init := ids[..|ids| - 1];
      TeardownsServices(init, pool);
      assert forall j :: j in init ==> j in ids;
    }
  }

  /**
   * `reset` empties the pool and calls every present teardown callback
   * exactly once, with the service of its own entry.
   */
  lemma ResetTearsDownEachOnce<R, V>(s: State<R, V>, k: Id)
    requires Valid(s)
    ensures Reset(s).order == [] && Reset(s).pool == map[] && Valid(Reset(s))
    ensures Reset(s).log[..|s.log|] == s.log
    ensures CallsFor(Reset(s).log[|s.log|..], k) == if k in s.pool && s.pool[k].hasDestroy then 1 else 0
    ensures forall c :: c in Reset(s).log[|s.log|..] ==> c.id in s.pool && c.service == s.pool[c.id].service
  {
    assert Reset(s).log[|s.log|..] == Teardowns(s.order, s.pool);
    TeardownsOncePerKey(s.order, s.pool, k);
    TeardownsServices(s.order, s.pool);
  }

  /** The liveness check of the mongoose scenario: a connection that is there is ready. */
  function Live(svc: Option<string>): bool
  {
    svc.Some?
  }

  /** A connection entry as the mongoose scenario builds it: the connection, a liveness check and a teardown callback. */
  function Conn(id: Id, conn: string): (d: Descriptor<string, bool>)
    ensures d.Object? && d.id == id && Validate(d) == Success(conn)
  {
    Object(id, Some(conn), Some(Live), true, true)
  }

  /** What `add(Conn(id, conn))` stores under `id`. */
  function Stored(conn: string): Entry<string, bool>
  {
    Entry(Some(conn), Some(Live), true)
  }

  /**
   * The opening of the mongoose scenario, on an empty pool of `max` 2: one
   * connection is added, checked and destroyed, which tears it down.
   */
  lemma ScenarioFirstConnection(s: State<string, bool>)
    requires s.max == 2 && s.order == [] && s.pool == map[]
    ensures var s1 := Add(s, Conn("id111", "c1"));
      && s1.order == ["id111"] && |s1.pool| == 1 && Test(s1, "id111") == Some(true)
      && Destroy(s1, "id111") == State(2, [], map[], s.log + [Teardown("id111", Some("c1"))])
  {
    var s1 := Add(s, Conn("id111", "c1"));
    assert s1.pool == map["id111" := Stored("c1")];
    assert Without(s1.order, "id111") == [];
  }

  /** Two connections added to an empty pool of `max` 2 fill it; nothing is torn down. */
  lemma ScenarioFillTwo(s: State<string, bool>)
    requires s.max == 2 && s.order == [] && s.pool == map[]
    ensures Add(Add(s, Conn("id111", "c1")), Conn("id222", "c2"))
         == State(2, ["id111", "id222"], map["id111" := Stored("c1"), "id222" := Stored("c2")], s.log)
  {
    var a1 := Add(s, Conn("id111", "c1"));
    assert a1 == State(2, ["id111"], map["id111" := Stored("c1")], s.log);
  }

  /** A third connection finds the pool full and evicts the first, which is torn down. */
  lemma ScenarioThirdEvicts(s: State<string, bool>)
    requires s.max == 2 && s.order == ["id111", "id222"]
    requires s.pool == map["id111" := Stored("c1"), "id222" := Stored("c2")]
    ensures Add(s, Conn("id333", "c3"))
         == State(2, ["id222", "id333"], map["id222" := Stored("c2"), "id333" := Stored("c3")],
                  s.log + [Teardown("id111", Some("c1"))])
  {
    assert Destroy(s, "id333") == s;
    assert Without(s.order, "id111") == ["id222"];
    assert Evict(s).pool == map["id222" := Stored("c2")];
  }

  /** Three connections added to an empty pool of `max` 2: only the first is evicted. */
  lemma ScenarioFill(s: State<string, bool>)
    requires s.max == 2 && s.order == [] && s.pool == map[]
    ensures AddAll(s, [Conn("id111", "c1"), Conn("id222", "c2"), Conn("id333", "c3")])
         == State(2, ["id222", "id333"], map["id222" := Stored("c2"), "id333" := Stored("c3")],
                  s.log + [Teardown("id111", Some("c1"))])
  {
    var ds := [Conn("id111", "c1"), Conn("id222", "c2"), Conn("id333", "c3")];
    assert ds[1..][1..][1..] == [];
    ScenarioFillTwo(s);
    ScenarioThirdEvicts(Add(Add(s, ds[0]), ds[1]));
  }

  /**
   * Re-adding `id222` to the full pool: only the old `id222` entry is torn
   * down, nothing is evicted, and the count stays 2.
   */
  lemma ScenarioReplace(s: State<string, bool>)
    requires s.max == 2 && s.order == ["id222", "id333"]
    requires s.pool == map["id222" := Stored("c2"), "id333" := Stored("c3")]
    ensures Add(s, Conn("id222", "c22"))
         == State(2, ["id333", "id222"], map["id333" := Stored("c3"), "id222" := Stored("c22")],
                  s.log + [Teardown("id222", Some("c2"))])
  {
    assert Without(s.order, "id222") == ["id333"];
    var s1 := Destroy(s, "id222");
    assert s1.pool == map["id333" := Stored("c3")];
    assert Evict(s1) == s1;
  }

  /**
   * The close of the scenario: `id333` is destroyed, `id222` is live and
   * holds its new connection, and `reset` tears it down and empties the pool.
   */
  lemma ScenarioDestroyAndReset(s: State<string, bool>)
    requires s.max == 2 && s.order == ["id333", "id222"]
    requires s.pool == map["id333" := Stored("c3"), "id222" := Stored("c22")]
    ensures var s1 := Destroy(s, "id333");
      && "id333" in s.pool && s1.order == ["id222"] && |s1.pool| == 1
      && Test(s1, "id222") == Some(true) && Get(s1, "id222") == Some(Some("c22"))
      && Reset(s1) == State(2, [], map[], s.log + [Teardown("id333", Some("c3")), Teardown("id222", Some("c22"))])
  {
    assert Without(s.order, "id333") == ["id222"];
    var s1 := Destroy(s, "id333");
    assert s1.pool == map["id222" := Stored("c22")];
    assert s1.order[..0] == [];
    assert Teardowns(s1.order, s1.pool) == [Teardown("id222", Some("c22"))];
    assert s1.log == s.log + [Teardown("id333", Some("c3"))];
  }
}
