/**
  The fail-open cache port, `CacheService` of dist/core/cache/redis.js, over
  an abstract key-value store.

  Redis holds text. The text this service writes is always `JSON.stringify` of
  a value, so an entry records the value `JSON.parse` gives back for it; the
  empty string, which only another client could have written, is kept apart
  as `Blank`. Time is an abstract clock in whole seconds: an entry written at
  `storedAt` with a TTL of `ttl` seconds is readable while
  `now < storedAt + ttl`, after which Redis has evicted it.

  Every call may meet a fault (no connection, a timeout, a malformed stored
  text, a rejected argument); the model receives that outcome as a `fault`
  flag. A fault never propagates: `get` answers null, the writes leave the
  cache as it was.
 */
module CacheService {
  import opened Wrappers
  import opened Json

  /** TTL in seconds that `set` uses when the caller gives none. */
  const DefaultTtl: int := 3600

  datatype Wire = Blank | Text(doc: JsonValue)

  datatype Entry = Entry(wire: Wire, ttl: int, storedAt: int)

  type Cache = map<string, Entry>

  /** The key is present and has not expired at time `now`. */
  predicate Live(c: Cache, now: int, key: string) {
    key in c && now < c[key].storedAt + c[key].ttl
  }

  /** `get`: the parsed value under the key, or null for an absent or expired
      key, an empty stored string, or any fault. */
  function Get(c: Cache, now: int, key: string, fault: bool): (r: JsonValue)
    ensures fault ==> r == JNull
    ensures !Live(c, now, key) ==> r == JNull
    ensures r != JNull ==> Live(c, now, key) && c[key].wire == Text(r)
    ensures !fault && Live(c, now, key) && c[key].wire.Text? ==> r == c[key].wire.doc
  {
    if fault || !Live(c, now, key) then JNull
    else match c[key].wire
      case Blank => JNull
      case Text(doc) => doc
  }

  /** `set(key, data, ttl = 3600)`: writes the JSON text of `data` with the
      given TTL. A fault, a value `JSON.stringify` rejects, or a TTL Redis
      refuses for SETEX (not positive) is swallowed and leaves the cache as it
      was. */
  function Set(c: Cache, now: int, key: string, data: J, ttl: Option<int>, fault: bool): (r: Cache)
    ensures r - {key} == c - {key}
    ensures fault || ttl.GetOr(DefaultTtl) <= 0 || ToWire(data).None? ==> r == c
    ensures !fault && ttl.GetOr(DefaultTtl) > 0 && ToWire(data).Some? ==>
              r == c[key := Entry(Text(ToWire(data).value), ttl.GetOr(DefaultTtl), now)]
  {
    var seconds := ttl.GetOr(DefaultTtl);
    if fault || seconds <= 0 then c
    else match ToWire(data)
      case None => c
      case Some(doc) => c[key := Entry(Text(doc), seconds, now)]
  }

  /** `delete(key)`: removes the key and nothing else; a fault is swallowed. */
  function Delete(c: Cache, key: string, fault: bool): (r: Cache)
    ensures r - {key} == c - {key}
    ensures fault ==> r == c
    ensures !fault ==> key !in r
  {
    if fault then c else c - {key}
  }

  /** `clear()`: FLUSHDB empties the cache; a fault is swallowed. */
  function Clear(c: Cache, fault: bool): (r: Cache)
    ensures fault ==> r == c
    ensures !fault ==> r == map[]
  {
    if fault then c else map[]
  }

  /** Round trip: until it expires, and with no delete or clear in between, a
      successful `set` is read back by `get` as the value JSON gives back. */
  lemma GetAfterSet(c: Cache, now: int, key: string, data: J, ttl: Option<int>, later: int)
    requires ToWire(data).Some? && ttl.GetOr(DefaultTtl) > 0
    requires now <= later < now + ttl.GetOr(DefaultTtl)
    ensures Get(Set(c, now, key, data, ttl, false), later, key, false) == ToWire(data).value
  {
  }

  /** A write to one key is invisible under every other key. */
  lemma GetAfterSetElsewhere(c: Cache, now: int, key: string, data: J, ttl: Option<int>,
                             fault: bool, later: int, other: string, readFault: bool)
    requires other != key
    ensures Get(Set(c, now, key, data, ttl, fault), later, other, readFault)
         == Get(c, later, other, readFault)
  {
    assert Set(c, now, key, data, ttl, fault) - {key} == c - {key};
    assert other in Set(c, now, key, data, ttl, fault) <==> other in c;
  }

  /** After a successful delete the key reads as a miss. */
  lemma GetAfterDelete(c: Cache, key: string, now: int, readFault: bool)
    ensures Get(Delete(c, key, false), now, key, readFault) == JNull
  {
  }

  /** After a successful clear every key reads as a miss. */
  lemma GetAfterClear(c: Cache, now: int, key: string, readFault: bool)
    ensures Get(Clear(c, false), now, key, readFault) == JNull
  {
  }

  /** An entry that reads as a miss at some instant still reads as a miss
      later, unless it is written in between: entries only expire. */
  lemma MissStaysMiss(c: Cache, now: int, later: int, key: string)
    requires now <= later
    requires !Truthy(Get(c, now, key, false))
    ensures !Truthy(Get(c, later, key, false))
  {
  }

  /** Writes to two different keys commute. */
  lemma SetsCommute(c: Cache, now: int, k1: string, d1: J, t1: Option<int>, f1: bool,
                    k2: string, d2: J, t2: Option<int>, f2: bool)
    requires k1 != k2
    ensures Set(Set(c, now, k1, d1, t1, f1), now, k2, d2, t2, f2)
         == Set(Set(c, now, k2, d2, t2, f2), now, k1, d1, t1, f1)
  {
    var a := Set(Set(c, now, k1, d1, t1, f1), now, k2, d2, t2, f2);
    var b := Set(Set(c, now, k2, d2, t2, f2), now, k1, d1, t1, f1);
    assert a.Keys == b.Keys;
    forall k | k in a
      ensures a[k] == b[k]
    {
    }
  }
}
