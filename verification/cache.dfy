/** The single-flight time-to-live cache behind every upstream fetcher
    (`memo`, `cacheKey`, `DEFAULT_TTL` in backend/server.js).

    The process-wide map goes from a cache key to an entry that is either the
    in-flight computation (`Pending`) or a completed value with its absolute
    expiry (`Ready`). Time is an input, and the producer is abstract: the model
    is a state machine driven by three events, a call, the producer's
    success and the producer's failure. */
module Cache {

  /** Default time-to-live per resource class, in milliseconds. */
  const TripsTtl: int := 60_000
  const EventsTtl: int := 45_000
  const MaintTtl: int := 120_000
  const MetaTtl: int := 5 * 60_000

  const KeySeparator: char := '|'

  /** Total length of the parts. */
  function PartsLen(parts: seq<string>): nat
  {
    if |parts| == 0 then 0 else |parts[0]| + PartsLen(parts[1..])
  }

  /** `Array.prototype.join` */
  function Join(parts: seq<string>, sep: char): (s: string)
    ensures |parts| == 0 ==> s == ""
    ensures |parts| > 0 ==> |s| == PartsLen(parts) + |parts| - 1
    ensures |parts| > 0 ==> s[..|parts[0]|] == parts[0]
    ensures |parts| >= 2 ==> s[|parts[0]|] == sep
  {
    if |parts| == 0 then ""
    else if |parts| == 1 then parts[0]
    else parts[0] + [sep] + Join(parts[1..], sep)
  }

  /** `cacheKey(...parts)`: the parts joined with `|`: the first part, then
      for each further part a `|` and that part, so the key is as long as
      the parts together plus one separator between each two. */
  function CacheKey(parts: seq<string>): (k: string)
    ensures |parts| == 0 ==> k == ""
    ensures |parts| > 0 ==> |k| == PartsLen(parts) + |parts| - 1
    ensures |parts| > 0 ==> k[..|parts[0]|] == parts[0]
    ensures |parts| >= 2 ==> k[|parts[0]|] == KeySeparator
  {
    Join(parts, KeySeparator)
  }

  predicate FreeOf(s: string, c: char)
  {
    forall i :: 0 <= i < |s| ==> s[i] != c
  }

  /** Position of the first `sep` in `s`, or `|s|` when there is none. */
  function FirstSep(s: string, sep: char): (r: nat)
    ensures r <= |s|
  {
    if |s| == 0 then 0 else if s[0] == sep then 0 else 1 + FirstSep(s[1..], sep)
  }

  lemma {:induction false} FirstSepAfterFreePrefix(x: string, y: string, sep: char)
    requires FreeOf(x, sep)
    ensures FirstSep(x + y, sep) == |x| + FirstSep(y, sep)
    decreases |x|
  {
    if |x| > 0 {
      assert (x + y)[1..] == x[1..] + y;
      FirstSepAfterFreePrefix(x[1..], y, sep);
    } else {
      assert x + y == y;
    }
  }

  /** Shape of a joined key whose first part holds no separator: that part,
      then (only when there are more parts) a separator and the rest. */
  lemma JoinShape(parts: seq<string>, sep: char)
    requires |parts| > 0 && FreeOf(parts[0], sep)
    ensures Join(parts, sep)[..|parts[0]|] == parts[0]
    ensures FirstSep(Join(parts, sep), sep) == |parts[0]|
    ensures |Join(parts, sep)| > |parts[0]| <==> |parts| >= 2
    ensures |parts| >= 2 ==> Join(parts, sep)[|parts[0]| + 1..] == Join(parts[1..], sep)
  {
    var j := Join(parts, sep);
    if |parts| == 1 {
      FirstSepAfterFreePrefix(parts[0], "", sep);
      assert parts[0] + "" == parts[0];
    } else {
      assert j == parts[0] + ([sep] + Join(parts[1..], sep));
      FirstSepAfterFreePrefix(parts[0], [sep] + Join(parts[1..], sep), sep);
    }
  }

  /** Keys built from separator-free parts identify their parts: two calls
      share an entry only when they passed the same parts. */
  lemma {:induction false} CacheKeyInjective(a: seq<string>, b: seq<string>)
    requires |a| > 0 && |b| > 0
    requires forall i :: 0 <= i < |a| ==> FreeOf(a[i], KeySeparator)
    requires forall i :: 0 <= i < |b| ==> FreeOf(b[i], KeySeparator)
    requires CacheKey(a) == CacheKey(b)
    ensures a == b
    decreases |a|
  {
    JoinShape(a, KeySeparator);
    JoinShape(b, KeySeparator);
    assert |a[0]| == |b[0]|;
    assert a[0] == b[0];
    if |a| >= 2 {
      CacheKeyInjective(a[1..], b[1..]);
      assert a == [a[0]] + a[1..] && b == [b[0]] + b[1..];
    }
  }

  /** Parts that contain the separator can collide. */
  lemma CacheKeyCollision()
    ensures CacheKey(["a|b", "c"]) == CacheKey(["a", "b|c"])
    ensures ["a|b", "c"] != ["a", "b|c"]
  {
    assert ["a|b", "c"][0] != ["a", "b|c"][0];
  }

  // ---------------------------------------------------------------------
  // The state machine
  // ---------------------------------------------------------------------

  /** `Pending` remembers when its call started and with which ttl: expiry is
      measured from the call's start, not from the producer's completion. */
  datatype Entry<V> = Pending(start: int, ttl: int) | Ready(value: V, expire: int)

  type Store<V> = map<string, Entry<V>>

  datatype Event<V> =
    | Call(key: string, now: int, ttl: int)
    | Resolve(key: string, value: V)
    | Reject(key: string)

  /** What a call returns: a cached value, the in-flight computation of an
      earlier call, or a fresh computation for which the producer ran. */
  datatype Reply<V> = Served(value: V) | Joined | Started

  predicate IsPending<V>(c: Store<V>, key: string)
  {
    key in c && c[key].Pending?
  }

  /** A `Ready` entry is served when its value is truthy and it has not
      expired. */
  predicate IsFresh<V>(c: Store<V>, key: string, now: int, truthy: V -> bool)
  {
    key in c && c[key].Ready? && truthy(c[key].value) && c[key].expire > now
  }

  /** `memo(key, ttl, fetcher)` at time `now`. */
  function CallStep<V>(c: Store<V>, key: string, now: int, ttl: int, truthy: V -> bool): (r: (Store<V>, Reply<V>))
    ensures IsFresh(c, key, now, truthy) ==> r == (c, Served(c[key].value))
    ensures IsPending(c, key) ==> r == (c, Joined)
    ensures r.1.Started? <==> !IsFresh(c, key, now, truthy) && !IsPending(c, key)
    ensures r.1.Started? ==> r.0 == c[key := Pending(now, ttl)]
  {
    if IsFresh(c, key, now, truthy) then (c, Served(c[key].value))
    else if IsPending(c, key) then (c, Joined)
    else (c[key := Pending(now, ttl)], Started)
  }

  /** The `finally` block: drop the entry only if it is still in flight. */
  function Finally<V>(c: Store<V>, key: string): Store<V>
  {
    if IsPending(c, key) then c - {key} else c
  }

  /** The producer of the in-flight call for `key` yielded `v`: the value
      is stored with expiry `start + ttl` and the `finally` block leaves it
      in place. With nothing in flight for `key` the store is unchanged. No
      other key changes either way. */
  function ResolveStep<V>(c: Store<V>, key: string, v: V): (r: Store<V>)
    ensures IsPending(c, key) ==> key in r && r[key] == Ready(v, c[key].start + c[key].ttl)
    ensures !IsPending(c, key) ==> r == c
    ensures forall k :: k != key ==> (k in r <==> k in c)
    ensures forall k :: k != key && k in c ==> r[k] == c[k]
  {
    if IsPending(c, key) then
      Finally(c[key := Ready(v, c[key].start + c[key].ttl)], key)
    else c
  }

  /** The producer of the in-flight call for `key` failed: the entry goes
      and nothing else changes; with nothing in flight for `key` the store
      is unchanged. */
  function RejectStep<V>(c: Store<V>, key: string): (r: Store<V>)
    ensures IsPending(c, key) ==> r == c - {key} && key !in r
    ensures !IsPending(c, key) ==> r == c
  {
    if IsPending(c, key) then Finally(c, key) else c
  }

  /** One event. The boolean says whether the producer was invoked. */
  function Step<V>(c: Store<V>, e: Event<V>, truthy: V -> bool): (Store<V>, bool)
  {
    match e
    case Call(key, now, ttl) =>
      var (c', reply) := CallStep(c, key, now, ttl, truthy);
      (c', reply.Started?)
    case Resolve(key, v) => (ResolveStep(c, key, v), false)
    case Reject(key) => (RejectStep(c, key), false)
  }

  function Run<V>(c: Store<V>, evs: seq<Event<V>>, truthy: V -> bool): Store<V>
    decreases |evs|
  {
    if |evs| == 0 then c else Run(Step(c, evs[0], truthy).0, evs[1..], truthy)
  }

  /** How many times the producer for `k` is invoked along `evs`. */
  function Invocations<V>(c: Store<V>, evs: seq<Event<V>>, k: string, truthy: V -> bool): nat
    decreases |evs|
  {
    if |evs| == 0 then 0
    else
      var (c', invoked) := Step(c, evs[0], truthy);
      (if invoked && evs[0].key == k then 1 else 0) + Invocations(c', evs[1..], k, truthy)
  }

  /** How many in-flight computations for `k` complete along `evs`. */
  function Settlements<V>(c: Store<V>, evs: seq<Event<V>>, k: string, truthy: V -> bool): nat
    decreases |evs|
  {
    if |evs| == 0 then 0
    else
      var settles := !evs[0].Call? && evs[0].key == k && IsPending(c, k);
      (if settles then 1 else 0) + Settlements(Step(c, evs[0], truthy).0, evs[1..], k, truthy)
  }

  function InFlight<V>(c: Store<V>, k: string): nat
  {
    if IsPending(c, k) then 1 else 0
  }

  /** Conservation law of the cache: every invocation of the producer for `k`
      is either settled or is the single computation still in flight. Since
      `InFlight` is 0 or 1, at most one producer per key runs at any time. */
  lemma {:induction false} SingleFlight<V>(c: Store<V>, evs: seq<Event<V>>, k: string, truthy: V -> bool)
    ensures Invocations(c, evs, k, truthy) + InFlight(c, k)
         == Settlements(c, evs, k, truthy) + InFlight(Run(c, evs, truthy), k)
    decreases |evs|
  {
    if |evs| > 0 {
      var c' := Step(c, evs[0], truthy).0;
      SingleFlight(c', evs[1..], k, truthy);
    }
  }

  predicate NoSettlementFor<V>(evs: seq<Event<V>>, k: string)
  {
    forall i :: 0 <= i < |evs| ==> evs[i].Call? || evs[i].key != k
  }

  /** N calls for one key with no completion in between invoke the producer at
      most once, and exactly once when the key starts out neither fresh nor in
      flight. */
  lemma ConcurrentCallsInvokeOnce<V>(c: Store<V>, evs: seq<Event<V>>, k: string, truthy: V -> bool)
    requires !IsPending(c, k)
    requires NoSettlementFor(evs, k)
    ensures Invocations(c, evs, k, truthy) <= 1
    ensures |evs| > 0 && evs[0].Call? && evs[0].key == k && !IsFresh(c, k, evs[0].now, truthy)
            ==> Invocations(c, evs, k, truthy) == 1
  {
    SingleFlight(c, evs, k, truthy);
    NoSettlementsCounted(c, evs, k, truthy);
  }

  lemma {:induction false} NoSettlementsCounted<V>(c: Store<V>, evs: seq<Event<V>>, k: string, truthy: V -> bool)
    requires NoSettlementFor(evs, k)
    ensures Settlements(c, evs, k, truthy) == 0
    decreases |evs|
  {
    if |evs| > 0 {
      assert NoSettlementFor(evs[1..], k) by {
        forall i | 0 <= i < |evs[1..]| ensures evs[1..][i].Call? || evs[1..][i].key != k {
          assert evs[1..][i] == evs[i + 1];
        }
      }
      NoSettlementsCounted(Step(c, evs[0], truthy).0, evs[1..], k, truthy);
    }
  }

  /** While a computation for `k` is in flight, further calls for `k` join it
      and leave the store as it is. */
  lemma {:induction false} CallsWhilePendingJoin<V>(c: Store<V>, evs: seq<Event<V>>, k: string, truthy: V -> bool)
    requires IsPending(c, k)
    requires forall i :: 0 <= i < |evs| ==> evs[i].Call? && evs[i].key == k
    ensures Run(c, evs, truthy) == c
    ensures Invocations(c, evs, k, truthy) == 0
    decreases |evs|
  {
    if |evs| > 0 {
      CallsWhilePendingJoin(c, evs[1..], k, truthy);
    }
  }

  /** Time-to-live: after a successful fetch started at `t0`, a call for the
      same key is served from the cache exactly while `now < t0 + ttl` (for a
      truthy value) and otherwise invokes the producer again. */
  lemma TtlRespected<V>(c: Store<V>, k: string, t0: int, ttl: int, v: V, now: int, truthy: V -> bool)
    requires !IsPending(c, k) && !IsFresh(c, k, t0, truthy)
    requires truthy(v)
    ensures var c1 := Run(c, [Call(k, t0, ttl), Resolve(k, v)], truthy);
            && k in c1 && c1[k] == Ready(v, t0 + ttl)
            && (now < t0 + ttl ==> CallStep(c1, k, now, ttl, truthy) == (c1, Served(v)))
            && (now >= t0 + ttl ==> CallStep(c1, k, now, ttl, truthy).1 == Started)
  {
    var c0 := CallStep(c, k, t0, ttl, truthy).0;
    assert c0 == c[k := Pending(t0, ttl)];
    var evs: seq<Event<V>> := [Call(k, t0, ttl), Resolve(k, v)];
    assert evs[1..] == [Resolve(k, v)];
    assert Run(c, evs, truthy) == Run(c0, [Resolve(k, v)], truthy);
    assert Run(c0, [Resolve(k, v)], truthy) == Run(ResolveStep(c0, k, v), [], truthy);
  }

  /** A falsy value is stored but never served: the next call re-invokes the
      producer even before expiry. */
  lemma FalsyValueNotServed<V>(c: Store<V>, k: string, now: int, ttl: int, truthy: V -> bool)
    requires k in c && c[k].Ready? && !truthy(c[k].value)
    ensures CallStep(c, k, now, ttl, truthy).1 == Started
  {
  }

  /** Failures are not cached: after the in-flight computation for `k` fails,
      the very next call for `k` invokes the producer again. */
  lemma FailureNotCached<V>(c: Store<V>, k: string, now: int, ttl: int, truthy: V -> bool)
    requires IsPending(c, k)
    ensures k !in RejectStep(c, k)
    ensures CallStep(RejectStep(c, k), k, now, ttl, truthy).1 == Started
  {
  }
}
