/**
 * The Redis client as the session code uses it: SET with an expiry, GET and
 * DELETE of a single key. `entries` holds the values and `ttl` the expiry,
 * in seconds, given when each key was set. Time does not pass in the model;
 * the store forgetting a key when its TTL runs out is the explicit step
 * `Expire`.
 */
module SessionStore {
  import opened Wrappers

  class SessionStore {
    var entries: map<string, string>
    var ttl: map<string, int>

    ghost predicate Valid()
      reads this
    {
      entries.Keys == ttl.Keys && forall k :: k in ttl ==> ttl[k] > 0
    }

    constructor ()
      ensures Valid() && entries == map[] && ttl == map[]
    {
      entries := map[];
      ttl := map[];
    }

    /** GET: the value under the key, or nil. */
    function Get(key: string): (r: Option<string>)
      reads this
      ensures r.Some? <==> key in entries
      ensures r.Some? ==> r.value == entries[key]
    {
      if key in entries then Some(entries[key]) else None
    }

    /** SET key value EX ex: overwrites any earlier value and expiry; Redis refuses a non-positive expiry. */
    method Set(key: string, value: string, ex: int)
      requires Valid() && ex > 0
      modifies this
      ensures Valid()
      ensures entries == old(entries)[key := value] && ttl == old(ttl)[key := ex]
    {
      entries := entries[key := value];
      ttl := ttl[key := ex];
    }

    /** DEL key: removes the key if present and answers how many keys it removed. */
    method Delete(key: string) returns (removed: nat)
      requires Valid()
      modifies this
      ensures Valid()
      ensures entries == old(entries) - {key} && ttl == old(ttl) - {key}
      ensures removed == if key in old(entries) then 1 else 0
    {
      removed := if key in entries then 1 else 0;
      entries := entries - {key};
      ttl := ttl - {key};
    }

    /** The TTL of a live key runs out and Redis forgets it. */
    method Expire(key: string)
      requires Valid() && key in entries
      modifies this
      ensures Valid()
      ensures entries == old(entries) - {key} && ttl == old(ttl) - {key}
    {
      entries := entries - {key};
      ttl := ttl - {key};
    }
  }
}
