/** The cached upstream accessors (`getDevices` … `getMaint` in
    backend/server.js): each builds a cache key from the resource name, the
    forwarded credential and its parameters, picks the resource class's ttl,
    and runs one upstream request through `memo`. The HTTP call itself is
    abstract: its effect is a `Response`. */
module Fetchers {
  import Cache

  /** What the upstream body can be: an array, some other truthy value, or a
      falsy value (null, missing body, empty string, 0). */
  datatype Payload<T> = Array(items: seq<T>) | Single(item: T) | Falsy

  /** `asArr`: an array as is, a single value wrapped, a falsy value empty. */
  function AsArr<T>(d: Payload<T>): (r: seq<T>)
    ensures d.Array? ==> r == d.items
    ensures d.Single? ==> r == [d.item]
    ensures d.Falsy? ==> r == []
  {
    match d
    case Array(items) => items
    case Single(item) => [item]
    case Falsy => []
  }

  datatype Resource =
    | Devices
    | Groups
    | Notifications
    | Geofences
    | Trips(deviceId: string, from: string, to: string)
    | Events(deviceId: string, from: string, to: string)
    | Maint(deviceId: string)

  /** The parts handed to `cacheKey`. */
  function KeyParts(auth: string, r: Resource): seq<string>
  {
    match r
    case Devices => ["devices", auth]
    case Groups => ["groups", auth]
    case Notifications => ["notifications", auth]
    case Geofences => ["geofences", auth]
    case Trips(id, from, to) => ["trips", auth, id, from, to]
    case Events(id, from, to) => ["events", auth, id, from, to]
    case Maint(id) => ["maint", auth, id]
  }

  function Key(auth: string, r: Resource): string
  {
    Cache.CacheKey(KeyParts(auth, r))
  }

  /** The ttl is fixed per resource class, never per key. */
  function Ttl(r: Resource): (t: int)
    ensures t > 0
    ensures r.Trips? ==> t == 60_000
    ensures r.Events? ==> t == 45_000
    ensures r.Maint? ==> t == 120_000
    ensures (r.Devices? || r.Groups? || r.Notifications? || r.Geofences?) ==> t == 300_000
  {
    match r
    case Trips(_, _, _) => Cache.TripsTtl
    case Events(_, _, _) => Cache.EventsTtl
    case Maint(_) => Cache.MaintTtl
    case _ => Cache.MetaTtl
  }

  /** Devices and groups are critical: an error status aborts the request. */
  predicate Critical(r: Resource)
  {
    r.Devices? || r.Groups?
  }

  /** The upstream exchange: a status and a body, or no response at all
      (network error, 30 s timeout). */
  datatype Response<T> = Response(status: int, data: Payload<T>) | NoResponse

  /** The HTTP client's `validateStatus`: it resolves for 200..499 only and
      rejects on every other status. */
  predicate ClientAccepts(status: int)
  {
    200 <= status < 500
  }

  /** What the producer passed to `memo` yields. */
  datatype Outcome<T> = Produced(value: seq<T>) | Failed

  /** The error policy, both directions: the producer fails exactly on a
      missing response, a status the client rejects (5xx included, for every
      resource), or a 4xx for a critical resource. A 4xx for any other
      resource degrades to the empty list, and a 2xx-3xx yields the body as
      a list. */
  function Produce<T>(r: Resource, resp: Response<T>): (o: Outcome<T>)
    ensures o.Failed? <==>
              resp.NoResponse?
              || !ClientAccepts(resp.status)
              || (resp.status >= 400 && Critical(r))
    ensures resp.Response? && 400 <= resp.status < 500 && !Critical(r) ==> o == Produced([])
    ensures resp.Response? && 200 <= resp.status < 400 ==> o == Produced(AsArr(resp.data))
    ensures resp.Response? && resp.status >= 500 ==> o.Failed?
  {
    match resp
    case NoResponse => Failed
    case Response(status, data) =>
      if !ClientAccepts(status) then Failed
      else if status >= 400 then (if Critical(r) then Failed else Produced([]))
      else Produced(AsArr(data))
  }

  /** A fetch call: `memo(key, ttl, producer)` at time `now`, with the key
      and ttl of `r`. Arrays are always truthy, so a cached list (even an
      empty one) is served until it expires; a call with nothing cached and
      nothing in flight stores an in-flight entry started now with the
      resource's ttl. */
  function Fetch<T>(c: Cache.Store<seq<T>>, auth: string, r: Resource, now: int): (o: (Cache.Store<seq<T>>, Cache.Reply<seq<T>>))
    ensures var k := Key(auth, r);
            k in c && c[k].Ready? && c[k].expire > now ==> o == (c, Cache.Served(c[k].value))
    ensures Cache.IsPending(c, Key(auth, r)) ==> o == (c, Cache.Joined)
    ensures var k := Key(auth, r);
            o.1.Started? <==> !(k in c && c[k].Ready? && c[k].expire > now) && !Cache.IsPending(c, k)
    ensures o.1.Started? ==> o.0 == c[Key(auth, r) := Cache.Pending(now, Ttl(r))]
  {
    Cache.CallStep(c, Key(auth, r), now, Ttl(r), (_: seq<T>) => true)
  }

  /** The upstream answered for the in-flight fetch of `r`. */
  function Complete<T>(c: Cache.Store<seq<T>>, auth: string, r: Resource, resp: Response<T>): Cache.Store<seq<T>>
  {
    match Produce(r, resp)
    case Produced(v) => Cache.ResolveStep(c, Key(auth, r), v)
    case Failed => Cache.RejectStep(c, Key(auth, r))
  }

  /** A best-effort resource answered with a 4xx: the empty list is cached as
      a ready value and served to every call until it expires. */
  lemma DegradedEmptyListIsCached<T>(c: Cache.Store<seq<T>>, auth: string, r: Resource, t0: int, status: int, data: Payload<T>, now: int)
    requires !Critical(r)
    requires 400 <= status < 500
    requires !Cache.IsPending(c, Key(auth, r))
    requires !(Key(auth, r) in c && c[Key(auth, r)].expire > t0)
    requires t0 <= now < t0 + Ttl(r)
    ensures var c1 := Fetch(c, auth, r, t0).0;
            var c2 := Complete(c1, auth, r, Response(status, data));
            Key(auth, r) in c2 && c2[Key(auth, r)] == Cache.Ready([], t0 + Ttl(r))
            && Fetch(c2, auth, r, now).1 == Cache.Served([])
  {
    var k := Key(auth, r);
    var c1 := Fetch(c, auth, r, t0).0;
    assert c1 == c[k := Cache.Pending(t0, Ttl(r))];
  }

  /** A critical resource answering with an error status, or any resource
      answering 5xx or not at all, leaves no entry behind: the next call
      fetches again. */
  lemma FailedFetchLeavesNoEntry<T>(c: Cache.Store<seq<T>>, auth: string, r: Resource, resp: Response<T>, now: int)
    requires Cache.IsPending(c, Key(auth, r))
    requires Produce(r, resp).Failed?
    ensures Key(auth, r) !in Complete(c, auth, r, resp)
    ensures Fetch(Complete(c, auth, r, resp), auth, r, now).1 == Cache.Started
  {
  }
}
