/**
 * The `ServicePool` class: a bounded registry of caller-supplied services,
 * keyed by id, whose methods update the pool in place. Each method that
 * changes the pool is proved to leave exactly the state the matching
 * function of PoolSpec computes from the old state.
 */
module Pool {
  import opened Wrappers
  import PoolSpec

  class ServicePool<!R, V> {
    /** The capacity; zero or less means unbounded. */
    const max: int
    /** The keys of the pool object, in the order the JavaScript engine enumerates them. */
    var order: seq<PoolSpec.Id>
    /** The pool object itself. */
    var pool: map<PoolSpec.Id, PoolSpec.Entry<R, V>>
    /** Every teardown callback call made so far, in order. */
    ghost var log: seq<PoolSpec.Teardown<R>>

    ghost function Abs(): PoolSpec.State<R, V>
      reads this
    {
      PoolSpec.State(max, order, pool, log)
    }

    ghost predicate Valid()
      reads this
    {
      PoolSpec.Valid(Abs())
    }

    /**
     * `configMax` is `config.max` when it is a number and `None` otherwise
     * (no config, no `max`, or a `max` of another type); `defaultMax` is the
     * library's default pool size.
     */
    constructor (configMax: Option<int>, defaultMax: int)
      ensures Valid()
      ensures Abs() == PoolSpec.Create(configMax, defaultMax)
    {
      max := if configMax.Some? then configMax.value else defaultMax;
      order := [];
      pool := map[];
      log := [];
    }

    method GetConfig() returns (c: PoolSpec.Config)
      ensures c.max == max
    {
      c := PoolSpec.Config(max);
    }

    method GetActiveServiceCount() returns (n: nat)
      requires Valid()
      ensures n == |pool|
      ensures max > 0 ==> n <= max
    {
      n := |order|;
      PoolSpec.CountIsKeys(order, pool);
    }

    method GetActiveIds() returns (ids: seq<PoolSpec.Id>)
      requires Valid()
      ensures ids == order
      ensures forall k :: k in ids <==> k in pool
      ensures PoolSpec.Distinct(ids)
    {
      ids := [];
      var i := 0;
      while i < |order|
        invariant 0 <= i <= |order|
        invariant ids == order[..i]
      {
        ids := ids + [order[i]];
        i := i + 1;
      }
    }

    /** Tears down and removes every entry, then answers `true`. */
    method Reset() returns (ok: bool)
      requires Valid()
      modifies this
      ensures Valid()
      ensures ok
      ensures Abs() == PoolSpec.Reset(old(Abs()))
    {
      var keys := order;
      var i := 0;
      while i < |keys|
        invariant 0 <= i <= |keys| && keys == old(order)
        invariant Abs() == PoolSpec.ResetPrefix(old(Abs()), i)
      {
        var x := keys[i];
        PoolSpec.ResetPrefixStep(old(Abs()), i);
        // The teardown callback, when there is one, gets the stored service.
        log := log + PoolSpec.Hook(x, pool[x]);
        pool := pool - {x};
        order := order[1..];
        i := i + 1;
      }
      PoolSpec.ResetPrefixAll(old(Abs()));
      ok := true;
    }

    /**
     * Stores the descriptor's `onAdd` under its id, after tearing down an
     * entry already under that id and, when the pool is full, the first
     * entry in enumeration order. Answers the stored service, or the
     * validation error; a descriptor without `onAdd` is still stored.
     */
    method Add(d: PoolSpec.Descriptor<R, V>) returns (r: Result<R, string>)
      requires Valid()
      requires d.Object? ==> PoolSpec.Ordinary(d.id)
      modifies this
      ensures Valid()
      ensures Abs() == PoolSpec.Add(old(Abs()), d)
      ensures r == PoolSpec.Validate(d)
    {
      var msg: Option<string> := None;
      if d.NonObject? || !d.plain {
        msg := Some(PoolSpec.InvalidObject);
      } else if d.onAdd.None? {
        msg := Some(PoolSpec.MissingOnAdd);
      }
      if d.NonObject? {
        // The rejection does not return, but reading `id` of a null or
        // undefined descriptor throws before the pool is touched.
        return Failure(msg.value);
      }

      var keys := order;
      var i := 0;
      while i < |keys|
        invariant 0 <= i <= |keys|
        invariant keys == old(order)
        invariant Valid()
        invariant Abs() == if d.id in keys[..i] then PoolSpec.Destroy(old(Abs()), d.id) else old(Abs())
      {
        assert keys[..i + 1] == keys[..i] + [keys[i]];
        if keys[i] == d.id {
          var _ := Destroy(keys[i]);
        }
        i := i + 1;
      }
      assert keys[..i] == keys;

      var length := |order|;
      if max > 0 && length >= max {
        var _ := Destroy(order[0]);
      }

      pool := pool[d.id := PoolSpec.Entry(d.onAdd, d.onTest, d.hasOnDestroy)];
      order := order + [d.id];
      PoolSpec.AddKeepsValid(old(Abs()), d);
      r := if msg.Some? then Failure(msg.value) else Success(d.onAdd.value);
    }

    /**
     * The stored service under `id`; `None` stands for `null`, "nothing found".
     * The method answers what `PoolSpec.Get` computes, so the lemmas about that
     * function (`AddThenGet`, `DestroyOnlyTouchesId`) hold for it.
     */
    method Get(id: PoolSpec.Id) returns (r: Option<Option<R>>)
      ensures r == PoolSpec.Get(Abs(), id)
    {
      r := None;
      if id in pool {
        r := Some(pool[id].service);
      } else if id in PoolSpec.InheritedNames {
        // An inherited property is found, but has no `service`.
        r := Some(None);
      }
    }

    /**
     * The health check's answer for `id`; `None` stands for `null`, no entry
     * or no check. As with `Get`, the lemmas about `PoolSpec.Test` carry over.
     */
    method Test(id: PoolSpec.Id) returns (r: Option<V>)
      ensures r == PoolSpec.Test(Abs(), id)
    {
      r := None;
      if id in pool && pool[id].test.Some? {
        r := Some(pool[id].test.value(pool[id].service));
      }
    }

    /**
     * Tears down and removes the entry under `id`; `false` stands for `null`,
     * "nothing found". An inherited property is found, so the answer is
     * `true`, but there is no own key to delete and no callback to call.
     */
    method Destroy(id: PoolSpec.Id) returns (removed: bool)
      requires Valid()
      modifies this
      ensures Valid()
      ensures removed == PoolSpec.Found(old(Abs()), id)
      ensures Abs() == PoolSpec.Destroy(old(Abs()), id)
    {
      removed := false;
      if id in pool || id in PoolSpec.InheritedNames {
        if id in pool {
          // The teardown callback, when there is one, gets the stored service.
          log := log + PoolSpec.Hook(id, pool[id]);
          pool := pool - {id};
          order := PoolSpec.Without(order, id);
        }
        removed := true;
      }
      PoolSpec.DestroyKeepsValid(old(Abs()), id);
    }
  }
}
