/** The in-process fallback cache `InMemoryRedis` (app/core/cache.py).

    A dictionary from key to (value, absolute expiry). Expiry is lazy: nothing
    sweeps the table, a read that finds an entry past its expiry deletes it.
    The wall clock `time.time()` is the integer parameter `now`. */
module Cache {
  import opened Wrappers

  datatype Entry = Entry(value: string, expiry: int)

  type Store = map<string, Entry>

  /** What a read at time `now` can see: the entry is present and `now` is not
      strictly after its expiry. */
  function Visible(store: Store, name: string, now: int): (r: Option<string>)
    ensures r.Some? <==> name in store && now <= store[name].expiry
    ensures r.Some? ==> r.value == store[name].value
  {
    if name in store && now <= store[name].expiry then Some(store[name].value) else None
  }

  /** The table after `setex(name, ttl, value)` at time `now`. */
  function Stored(store: Store, name: string, ttl: int, value: string, now: int): (s: Store)
    ensures name in s && s[name] == Entry(value, now + ttl)
    ensures forall k :: k != name ==> (k in s <==> k in store) && (k in s ==> s[k] == store[k])
  {
    store[name := Entry(value, now + ttl)]
  }

  /** The table after `get(name)` at time `now`: an expired entry is gone. */
  function Swept(store: Store, name: string, now: int): (s: Store)
    ensures name in s <==> name in store && now <= store[name].expiry
    ensures forall k :: k in s ==> k in store && s[k] == store[k]
    ensures forall k :: k != name ==> (k in s <==> k in store)
  {
    if name in store && now > store[name].expiry then store - {name} else store
  }

  /** The table after `delete(name)`. */
  function Removed(store: Store, name: string): (s: Store)
    ensures name !in s
    ensures forall k :: k != name ==> (k in s <==> k in store) && (k in s ==> s[k] == store[k])
  {
    store - {name}
  }

  class InMemoryRedis {
    var store: Store

    constructor ()
      ensures store == map[]
    {
      store := map[];
    }

    /** Overwrites the entry for `name`; always reports success. */
    method Setex(name: string, timeSeconds: int, value: string, now: int) returns (ok: bool)
      modifies this
      ensures ok
      ensures store == Stored(old(store), name, timeSeconds, value, now)
    {
      store := store[name := Entry(value, now + timeSeconds)];
      ok := true;
    }

    /** Returns the value if present and not expired; deletes an expired entry. */
    method Get(name: string, now: int) returns (r: Option<string>)
      modifies this
      ensures r == Visible(old(store), name, now)
      ensures store == Swept(old(store), name, now)
    {
      if name !in store {
        return None;
      }
      var data := store[name];
      if now > data.expiry {
        store := store - {name};
        return None;
      }
      r := Some(data.value);
    }

    /** Removes `name`; the count says whether there was an entry. */
    method Delete(name: string) returns (count: int)
      modifies this
      ensures count == if name in old(store) then 1 else 0
      ensures store == Removed(old(store), name)
    {
      if name in store {
        store := store - {name};
        return 1;
      }
      count := 0;
    }
  }

  /** After `setex(k, ttl, v)` at `now`, a read at any time up to `now + ttl`
      (inclusive) sees `v`, and a read after that sees nothing. */
  lemma ReadAfterSetex(store: Store, name: string, ttl: int, value: string, now: int, later: int)
    ensures later <= now + ttl ==> Visible(Stored(store, name, ttl, value, now), name, later) == Some(value)
    ensures later > now + ttl ==> Visible(Stored(store, name, ttl, value, now), name, later) == None
  {
  }

  /** A read of a key that is not in the table finds nothing and leaves the table as it was. */
  lemma GetMissing(store: Store, name: string, now: int)
    requires name !in store
    ensures Visible(store, name, now) == None && Swept(store, name, now) == store
  {
  }

  /** A read of a live key returns its value and leaves the table as it was. */
  lemma GetLive(store: Store, name: string, now: int)
    requires name in store && now <= store[name].expiry
    ensures Visible(store, name, now) == Some(store[name].value) && Swept(store, name, now) == store
  {
  }

  /** A read strictly after expiry finds nothing and removes the key. */
  lemma GetExpired(store: Store, name: string, now: int)
    requires name in store && now > store[name].expiry
    ensures Visible(store, name, now) == None && Swept(store, name, now) == store - {name}
  {
  }

  /** Lazy expiry is invisible: from `now` on, every read of every key sees the
      same thing in the swept table as in the original one. */
  lemma SweepUnobservable(store: Store, name: string, now: int, later: int, k: string)
    requires now <= later
    ensures Visible(Swept(store, name, now), k, later) == Visible(store, k, later)
  {
    if k == name && name in store && now > store[name].expiry {
      assert later > store[name].expiry;
    }
  }
}
