/**
 * The service pool as a value: its state, each of its operations as a
 * function from the old state to the new one, and the invariant that every
 * operation keeps. The class in service_pool.dfy is proved to follow these
 * functions step by step.
 */
module PoolSpec {
  import opened Wrappers

  /** Keys of the pool object are strings. */
  type Id = string

  /**
   * One stored entry. `service` is whatever `onAdd` held (absent when the
   * descriptor had none, see `Add`); `test` is the health-check callback,
   * applied to the stored service; `hasDestroy` says whether a teardown
   * callback is present. Absent also covers JavaScript's falsy values.
   */
  datatype Entry<!R, V> = Entry(service: Option<R>, test: Option<Option<R> -> V>, hasDestroy: bool)

  /** One call of a teardown callback: the key it was stored under and the service it was given. */
  datatype Teardown<R> = Teardown(id: Id, service: Option<R>)

  /**
   * The pool: its capacity `max`, the keys in enumeration order, the entries,
   * and the log of every teardown call made so far.
   */
  datatype State<!R, V> = State(max: int, order: seq<Id>, pool: map<Id, Entry<R, V>>, log: seq<Teardown<R>>)

  /**
   * What `add` is given. `NonObject` is a `null` or `undefined` descriptor,
   * whose `id` cannot be read. `Object` is any other value: its `id`, its
   * optional `onAdd` value, `onTest` callback and `onDestroy` callback, and
   * whether the type check sees a plain object. An array, a function or a
   * boxed value is not plain.
   */
  datatype Descriptor<!R, V> =
    | NonObject
    | Object(id: Id, onAdd: Option<R>, onTest: Option<Option<R> -> V>, hasOnDestroy: bool, plain: bool)

  /** The snapshot returned by `getConfig`. */
  datatype Config = Config(max: int)

  const InvalidObject: string := "Invalid JS Object passed as parameter"
  const MissingOnAdd: string := "JS Object missing onAdd function call"

  /** No key occurs twice. */
  predicate Distinct(s: seq<Id>)
  {
    forall i, j :: 0 <= i < j < |s| ==> s[i] != s[j]
  }

  /** Every character is a decimal digit. */
  predicate AllDigits(k: string)
  {
    forall i :: 0 <= i < |k| ==> '0' <= k[i] <= '9'
  }

  /** The number a string of decimal digits denotes. */
  function DecimalValue(k: string): (n: nat)
    requires AllDigits(k)
    ensures k == [] ==> n == 0
  {
    if k == [] then 0
    else DecimalValue(k[..|k| - 1]) * 10 + (k[|k| - 1] as int - '0' as int)
  }

  /**
   * A key that JavaScript treats as an array index (a canonical decimal below
   * 2^32 - 1). Such keys enumerate before all others in ascending numeric
   * order, so insertion order is the enumeration order only without them.
   */
  predicate IsArrayIndex(k: Id)
  {
    && |k| > 0
    && AllDigits(k)
    && (k[0] != '0' || |k| == 1)
    && DecimalValue(k) < 0xFFFF_FFFF
  }

  /**
   * The properties every object inherits from `Object.prototype`. Reading one
   * of them from the pool object finds a value even when the pool has no
   * entry under that name.
   */
  const InheritedNames: set<Id> := {
    "constructor", "hasOwnProperty", "isPrototypeOf", "propertyIsEnumerable",
    "toLocaleString", "toString", "valueOf", "__proto__",
    "__defineGetter__", "__defineSetter__", "__lookupGetter__", "__lookupSetter__"
  }

  /**
   * A key that assignment stores as an own property enumerated in insertion
   * order: not an array index, and not `__proto__`, whose assignment replaces
   * the pool object's prototype instead.
   */
  predicate Ordinary(k: Id)
  {
    !IsArrayIndex(k) && k != "__proto__"
  }

  /**
   * The invariant of the pool: `order` lists each key of `pool` exactly once,
   * in insertion order (every key is ordinary), and the number of entries
   * never exceeds a positive `max`.
   */
  ghost predicate Valid<R, V>(s: State<R, V>)
  {
    && Distinct(s.order)
    && (forall k :: k in s.pool <==> k in s.order)
    && (forall k :: k in s.order ==> Ordinary(k))
    && (s.max > 0 ==> |s.order| <= s.max)
  }

  /** `s` with the key `x` taken out; the other keys keep their relative order. */
  function Without(s: seq<Id>, x: Id): (r: seq<Id>)
    ensures forall k :: k in r <==> k in s && k != x
    ensures x !in s ==> r == s
    ensures Distinct(s) ==> Distinct(r)
    ensures Distinct(s) && x in s ==> |r| == |s| - 1
    ensures Distinct(s) && s != [] && s[0] == x ==> r == s[1..]
  {
    if s == [] then []
    else if s[0] == x then Without(s[1..], x)
    else
      var rest := Without(s[1..], x);
      assert Distinct(s) ==> s[0] !in s[1..];
      [s[0]] + rest
  }

  /**
   * Taking a present key out of a duplicate-free list cuts it at its one
   * position `i`: the keys before and after it keep their relative order.
   */
  lemma {:induction false} WithoutCutsOne(s: seq<Id>, x: Id) returns (i: nat)
    requires Distinct(s) && x in s
    ensures i < |s| && s[i] == x
    ensures Without(s, x) == s[..i] + s[i + 1..]
  {
    if s[0] == x {
      i := 0;
    } else {
      var j := WithoutCutsOne(s[1..], x);
      i := j + 1;
      assert s[1..][..j] == s[1..i];
      assert s[1..][j + 1..] == s[i + 1..];
      assert [s[0]] + s[1..i] == s[..i];
    }
  }

  /**
   * The pool built by the constructor: `max` is the configured number when
   * there is one and `defaultMax` otherwise; no entries, no teardowns.
   */
  function Create<R, V>(configMax: Option<int>, defaultMax: int): (s: State<R, V>)
    ensures Valid(s)
    ensures s.order == [] && s.pool == map[] && s.log == []
    ensures configMax.Some? ==> s.max == configMax.value
    ensures configMax.None? ==> s.max == defaultMax
  {
    State(if configMax.Some? then configMax.value else defaultMax, [], map[], [])
  }

  /** The teardown call made when entry `e`, stored under `id`, is removed. */
  function Hook<R, V>(id: Id, e: Entry<R, V>): (r: seq<Teardown<R>>)
    ensures |r| == if e.hasDestroy then 1 else 0
    ensures forall c :: c in r ==> c.id == id && c.service == e.service
  {
    if e.hasDestroy then [Teardown(id, e.service)] else []
  }

  /** `destroy(id)`: tear down and remove the entry under `id`, if there is one. */
  function Destroy<R, V>(s: State<R, V>, id: Id): (r: State<R, V>)
    ensures r.max == s.max && id !in r.pool
    ensures |s.log| <= |r.log| <= |s.log| + 1 && r.log[..|s.log|] == s.log
    ensures id !in s.pool ==> r == s
  {
    if id in s.pool then State(s.max, Without(s.order, id), s.pool - {id}, s.log + Hook(id, s.pool[id]))
    else s
  }

  /**
   * The eviction step of `add`: when full, destroy the first key in
   * enumeration order (`EvictMakesRoom` says what that achieves).
   */
  function Evict<R, V>(s: State<R, V>): (r: State<R, V>)
    ensures r.max == s.max
    ensures r == s || (s.order != [] && r == Destroy(s, s.order[0]))
  {
    if s.max > 0 && |s.order| >= s.max then Destroy(s, s.order[0]) else s
  }

  /**
   * From a valid state, eviction keeps the invariant and leaves room for one
   * more entry; when it removes anything, it is the oldest key alone.
   */
  lemma EvictMakesRoom<R, V>(s: State<R, V>)
    requires Valid(s)
    ensures Valid(Evict(s))
    ensures s.max > 0 ==> |Evict(s).order| < s.max
    ensures Evict(s) != s ==> s.order != [] && Evict(s).order == s.order[1..] && Evict(s).pool == s.pool - {s.order[0]}
  {
    if s.max > 0 && |s.order| >= s.max {
      DestroyKeepsValid(s, s.order[0]);
    }
  }

  /** `add(d)`: replacement, eviction, then the store under `d.id`. */
  function Add<R, V>(s: State<R, V>, d: Descriptor<R, V>): (r: State<R, V>)
    ensures r.max == s.max
    ensures d.NonObject? ==> r == s
    ensures d.Object? ==> r.order != [] && r.order[|r.order| - 1] == d.id
    ensures d.Object? ==> d.id in r.pool && r.pool[d.id] == Entry(d.onAdd, d.onTest, d.hasOnDestroy)
  {
    match d
    case NonObject => s
    case Object(id, onAdd, onTest, hasOnDestroy, _) =>
      var room := Evict(Destroy(s, id));
      State(room.max, room.order + [id], room.pool[id := Entry(onAdd, onTest, hasOnDestroy)], room.log)
  }

  /** How the promise returned by `add(d)` settles. */
  function Validate<R, V>(d: Descriptor<R, V>): (r: Result<R, string>)
    ensures r.Success? <==> d.Object? && d.plain && d.onAdd.Some?
    ensures r.Success? ==> r.value == d.onAdd.value
    ensures r.Failure? ==> r.error == (if d.NonObject? || !d.plain then InvalidObject else MissingOnAdd)
  {
    if d.NonObject? || !d.plain then Failure(InvalidObject)
    else if d.onAdd.None? then Failure(MissingOnAdd)
    else Success(d.onAdd.value)
  }

  /**
   * Whether reading `id` from the pool object finds a value: an entry, or an
   * inherited property, which has no `service`, `test` or `destroy` of its own.
   */
  predicate Found<R, V>(s: State<R, V>, id: Id)
    ensures id in s.pool ==> Found(s, id)
    ensures id !in InheritedNames ==> (Found(s, id) <==> id in s.pool)
  {
    id in s.pool || id in InheritedNames
  }

  /**
   * `get(id)`: `None` (`null`) when nothing is found, else the stored service;
   * an inherited property yields `Some(None)` (`undefined`).
   */
  function Get<R, V>(s: State<R, V>, id: Id): (r: Option<Option<R>>)
    ensures r.Some? <==> Found(s, id)
    ensures id in s.pool ==> r == Some(s.pool[id].service)
    ensures r.Some? && r.value.Some? ==> id in s.pool
  {
    if !Found(s, id) then None
    else if id in s.pool then Some(s.pool[id].service)
    else Some(None)
  }

  /** `test(id)`: the health check's answer, or `None` without entry or callback. */
  function Test<R, V>(s: State<R, V>, id: Id): (r: Option<V>)
    ensures r.Some? <==> id in s.pool && s.pool[id].test.Some?
    ensures r.Some? ==> r.value == s.pool[id].test.value(s.pool[id].service)
  {
    if id in s.pool && s.pool[id].test.Some? then Some(s.pool[id].test.value(s.pool[id].service)) else None
  }

  /** The teardown calls made for the keys `ids` of `pool`, in that order. */
  function Teardowns<R, V>(ids: seq<Id>, pool: map<Id, Entry<R, V>>): seq<Teardown<R>>
  {
    if ids == [] then []
    else
      var last := ids[|ids| - 1];
      Teardowns(ids[..|ids| - 1], pool) + (if last in pool then Hook(last, pool[last]) else [])
  }

  /** Tearing down one more key appends that key's teardown call. */
  lemma TeardownsSnoc<R, V>(ids: seq<Id>, x: Id, pool: map<Id, Entry<R, V>>)
    requires x in pool
    ensures Teardowns(ids + [x], pool) == Teardowns(ids, pool) + Hook(x, pool[x])
  {
    assert (ids + [x])[..|ids|] == ids;
  }

  /** The keys a list names. */
  function Members(s: seq<Id>): set<Id>
  {
    set k | k in s
  }

  /** `reset()`: tear down every entry in enumeration order and empty the pool. */
  function Reset<R, V>(s: State<R, V>): (r: State<R, V>)
    ensures r.max == s.max && r.order == [] && r.pool == map[]
    ensures |r.log| >= |s.log| && r.log[..|s.log|] == s.log
  {
    State(s.max, [], map[], s.log + Teardowns(s.order, s.pool))
  }

  /** A duplicate-free key list that names exactly the keys of `pool` is as long as `pool` is large. */
  lemma {:induction false} CountIsKeys<E>(order: seq<Id>, pool: map<Id, E>)
    requires Distinct(order)
    requires forall k :: k in pool <==> k in order
    ensures |pool| == |order|
  {
    if order == [] {
      assert pool == map[];
    } else {
      var x := order[0];
      var rest := pool - {x};
      assert forall k :: k in rest <==> k in order[1..];
      CountIsKeys(order[1..], rest);
      assert pool.Keys == rest.Keys + {x};
    }
  }

  /** The state `reset` has reached after handling the first `n` keys. */
  function ResetPrefix<R, V>(s: State<R, V>, n: nat): State<R, V>
    requires n <= |s.order|
  {
    State(s.max, s.order[n..], s.pool - Members(s.order[..n]), s.log + Teardowns(s.order[..n], s.pool))
  }

  /**
   * One iteration of the reset loop: the next key is at the head of what is
   * left and still has an entry, and tearing it down and deleting it reaches
   * the next prefix state.
   */
  lemma ResetPrefixStep<R, V>(s: State<R, V>, n: nat)
    requires Valid(s) && n < |s.order|
    ensures var t := ResetPrefix(s, n); var x := s.order[n];
      && t.order != [] && t.order[0] == x && x in t.pool
      && ResetPrefix(s, n + 1) == State(t.max, t.order[1..], t.pool - {x}, t.log + Hook(x, t.pool[x]))
  {
    var x := s.order[n];
    var t := ResetPrefix(s, n);
    PrefixPool(s.order, s.pool, n);
    PrefixLog(s.order, s.pool, n);
    assert s.order[n + 1..] == t.order[1..];
  }

  /** The entries left after `n` keys are the ones left after `n + 1`, plus key `n`. */
  lemma PrefixPool<E>(order: seq<Id>, pool: map<Id, E>, n: nat)
    requires Distinct(order) && (forall k :: k in pool <==> k in order) && n < |order|
    ensures order[n] in pool - Members(order[..n])
    ensures pool - Members(order[..n + 1]) == (pool - Members(order[..n])) - {order[n]}
  {
    var x := order[n];
    assert order[..n + 1] == order[..n] + [x];
    assert Members(order[..n + 1]) == Members(order[..n]) + {x};
    assert forall j :: 0 <= j < n ==> order[..n][j] != x;
    assert x !in Members(order[..n]);
  }

  /** The teardowns for `n + 1` keys are those for `n` keys, then key `n`'s. */
  lemma PrefixLog<R, V>(order: seq<Id>, pool: map<Id, Entry<R, V>>, n: nat)
    requires n < |order| && order[n] in pool
    ensures Teardowns(order[..n + 1], pool) == Teardowns(order[..n], pool) + Hook(order[n], pool[order[n]])
  {
    assert order[..n + 1] == order[..n] + [order[n]];
    TeardownsSnoc(order[..n], order[n], pool);
  }

  /** After every key, the reset loop has reached the reset state, which is valid. */
  lemma ResetPrefixAll<R, V>(s: State<R, V>)
    requires Valid(s)
    ensures ResetPrefix(s, |s.order|) == Reset(s)
    ensures Valid(Reset(s))
  {
    assert s.order[..|s.order|] == s.order;
    assert s.pool - Members(s.order) == map[];
  }

  /** `destroy` keeps the invariant and the capacity. */
  lemma DestroyKeepsValid<R, V>(s: State<R, V>, id: Id)
    requires Valid(s)
    ensures Valid(Destroy(s, id))
    ensures Destroy(s, id).max == s.max
  {
  }

  /**
   * `add` keeps the invariant and the capacity, provided the id it stores
   * is ordinary.
   */
  lemma AddKeepsValid<R, V>(s: State<R, V>, d: Descriptor<R, V>)
    requires Valid(s)
    requires d.Object? ==> Ordinary(d.id)
    ensures Valid(Add(s, d))
    ensures Add(s, d).max == s.max
  {
    if d.Object? {
      var s1 := Destroy(s, d.id);
      DestroyKeepsValid(s, d.id);
      assert d.id !in s1.order;
      var s2 := Evict(s1);
      if s1.max > 0 && |s1.order| >= s1.max {
        DestroyKeepsValid(s1, s1.order[0]);
        assert |s2.order| == |s1.order| - 1;
      }
      assert d.id !in s2.order;
      assert s2.max > 0 ==> |s2.order| < s2.max;
      var t := Add(s, d);
      assert t.order == s2.order + [d.id];
      forall i, j | 0 <= i < j < |t.order| ensures t.order[i] != t.order[j] {
        if j == |s2.order| {
          assert t.order[i] in s2.order;
        }
      }
    }
  }
}
