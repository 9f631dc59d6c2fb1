/** The `memoize(cache)` extension functions, run one call at a time: a cache
    is a map from argument keys to results, and a memoized call is a step
    from a cache to an output and a new cache. */
module Memoize {
  import opened Wrappers

  /** The initial capacity of the map the capacity-only overloads create. */
  const DefaultCapacity: int := 256

  /** One memoized call: what the caller receives, the cache afterwards, and
      whether the wrapped function was invoked. */
  datatype Call<K, V, E> = Call(output: Result<V, E>, cache: map<K, V>, computed: bool)

  /** A call left the entry of `key` alone: the key is cached afterwards
      exactly when it was cached before, and with the same value. */
  ghost predicate Untouched<K, V>(before: map<K, V>, after: map<K, V>, key: K) {
    (key in after <==> key in before)
    && (key in before ==> after[key] == before[key])
  }

  /** Every stored entry is what the wrapped function returns for its key. */
  ghost predicate Consistent<K, V, E>(cache: map<K, V>, f: K -> Result<V, E>) {
    forall k :: k in cache ==> f(k) == Success(cache[k])
  }

  /** The `IllegalArgumentException` the JVM map constructor throws for a
      negative initial capacity. */
  datatype CacheError = IllegalArgument

  /** The map a capacity-only overload starts from, `ConcurrentHashMap(initialCapacity)`.
      A negative capacity is rejected before any memoized function exists;
      any other capacity is only an allocation hint, and the map starts empty. */
  function NewCache<K, V>(initialCapacity: int := DefaultCapacity): (r: Result<map<K, V>, CacheError>)
    ensures r.Success? <==> 0 <= initialCapacity
    ensures r.Success? ==> |r.value| == 0
    ensures r.Failure? ==> r.error == IllegalArgument
  {
    if initialCapacity < 0 then Failure(IllegalArgument) else Success(map[])
  }

  /** `cache.getOrPut(key) { compute() }`: a stored value is returned without
      computing; otherwise `compute` runs once and a successful result is
      stored under `key`. A failure (a thrown exception) reaches the caller
      and stores nothing. No other key is touched. */
  function GetOrPut<K(!new), V, E>(cache: map<K, V>, key: K, compute: () -> Result<V, E>): (r: Call<K, V, E>)
    ensures r.computed <==> key !in cache
    ensures key in cache ==> r.output == Success(cache[key]) && r.cache == cache
    ensures key !in cache ==> r.output == compute()
    ensures r.output.Success? ==> key in r.cache && r.cache[key] == r.output.value
    ensures r.output.Failure? ==> r.cache == cache
    ensures forall k :: k != key ==> Untouched(cache, r.cache, k)
  {
    if key in cache then Call(Success(cache[key]), cache, false)
    else
      match compute()
      case Success(v) => Call(Success(v), cache[key := v], true)
      case Failure(e) => Call(Failure(e), cache, true)
  }

  /** A call of the one-argument memoized function `f.memoize(cache)`. As long
      as the cache only holds results of `f`, the caller cannot tell the
      memoized function from `f`, and the cache keeps that property. */
  function Memoized1<A(!new), R, E>(f: A -> Result<R, E>, cache: map<A, R>, a: A): (r: Call<A, R, E>)
    ensures Consistent(cache, f) ==> r.output == f(a) && Consistent(r.cache, f)
    ensures r.computed <==> a !in cache
    ensures forall k :: k != a ==> Untouched(cache, r.cache, k)
  {
    GetOrPut(cache, a, () => f(a))
  }

  /** The two-argument function seen as a function of its pair key. */
  function Paired<A, B, R, E>(f: (A, B) -> Result<R, E>): ((A, B)) -> Result<R, E>
  {
    (k: (A, B)) => f(k.0, k.1)
  }

  /** A call of the two-argument memoized function: the cache is keyed by the
      pair `(a, b)`, so a call can only touch the entry of its own pair. */
  function Memoized2<A(==, !new), B(==, !new), R, E>(f: (A, B) -> Result<R, E>, cache: map<(A, B), R>, a: A, b: B)
    : (r: Call<(A, B), R, E>)
    ensures Consistent(cache, Paired(f)) ==> r.output == f(a, b) && Consistent(r.cache, Paired(f))
    ensures r.computed <==> (a, b) !in cache
    ensures forall a', b' :: (a' != a || b' != b) ==> Untouched(cache, r.cache, (a', b'))
  {
    GetOrPut(cache, (a, b), () => f(a, b))
  }

  // ---------------------------------------------------------------------
  // Properties relating several calls

  /** Once a call for `a` has succeeded, the next call for `a` is a hit: it
      returns the same value without invoking `f` and leaves the cache alone. */
  lemma RepeatedCallIsHit<A(!new), R, E>(f: A -> Result<R, E>, cache: map<A, R>, a: A)
    requires Memoized1(f, cache, a).output.Success?
    ensures var first := Memoized1(f, cache, a);
            var second := Memoized1(f, first.cache, a);
            second.output == first.output && !second.computed && second.cache == first.cache
  {
  }

  /** The same for the two-argument form and its pair key. */
  lemma RepeatedCallIsHit2<A(!new), B(!new), R, E>(
    f: (A, B) -> Result<R, E>, cache: map<(A, B), R>, a: A, b: B)
    requires Memoized2(f, cache, a, b).output.Success?
    ensures var first := Memoized2(f, cache, a, b);
            var second := Memoized2(f, first.cache, a, b);
            second.output == first.output && !second.computed && second.cache == first.cache
  {
  }

  /** A failed call poisons nothing: the next identical call invokes `f` again. */
  lemma FailureIsRetried<A(!new), R, E>(f: A -> Result<R, E>, cache: map<A, R>, a: A)
    requires Memoized1(f, cache, a).output.Failure?
    ensures var first := Memoized1(f, cache, a);
            var second := Memoized1(f, first.cache, a);
            first.cache == cache && second.computed && second.output == f(a)
  {
  }

  /** The default capacity is accepted, and a capacity-only overload whose
      capacity is accepted starts empty, so the first call for any key is a
      miss that invokes the wrapped function, in both forms. */
  lemma FreshCacheMisses<A(!new), B(!new), R, E>(
    f: A -> Result<R, E>, g: (A, B) -> Result<R, E>, initialCapacity: int, a: A, b: B)
    ensures NewCache<A, R>().Success? && NewCache<(A, B), R>().Success?
    ensures NewCache<A, R>(initialCapacity).Success? ==>
              Memoized1(f, NewCache(initialCapacity).value, a).computed
              && Memoized1(f, NewCache(initialCapacity).value, a).output == f(a)
    ensures NewCache<(A, B), R>(initialCapacity).Success? ==>
              Memoized2(g, NewCache(initialCapacity).value, a, b).computed
              && Memoized2(g, NewCache(initialCapacity).value, a, b).output == g(a, b)
  {
  }

  /** The outputs of a sequence of calls made through one cache, the cache
      they leave behind, and how many of them invoked `f`. */
  datatype Trace<K, V, E> = Trace(outputs: seq<Result<V, E>>, cache: map<K, V>, invocations: nat)

  /** Feeds `keys` one after another through the memoized `f`. */
  function Run<K(==, !new), V, E>(f: K -> Result<V, E>, cache: map<K, V>, keys: seq<K>): (t: Trace<K, V, E>)
    ensures |t.outputs| == |keys|
    ensures t.invocations <= |keys|
    ensures cache.Keys <= t.cache.Keys
    decreases |keys|
  {
    if |keys| == 0 then Trace([], cache, 0)
    else
      var c := Memoized1(f, cache, keys[0]);
      var rest := Run(f, c.cache, keys[1..]);
      Trace([c.output] + rest.outputs, rest.cache, (if c.computed then 1 else 0) + rest.invocations)
  }

  /** The keys of a call sequence. */
  function KeySet<K>(keys: seq<K>): set<K> {
    set i | 0 <= i < |keys| :: keys[i]
  }

  /** Memoization is invisible to the caller: starting from a cache that only
      holds results of `f`, every call of the sequence returns what `f`
      returns for its key. */
  lemma {:induction false} RunIsTransparent<K(!new), V, E>(f: K -> Result<V, E>, cache: map<K, V>, keys: seq<K>)
    requires Consistent(cache, f)
    ensures forall i :: 0 <= i < |keys| ==> Run(f, cache, keys).outputs[i] == f(keys[i])
    ensures Consistent(Run(f, cache, keys).cache, f)
    decreases |keys|
  {
    if |keys| > 0 {
      var c := Memoized1(f, cache, keys[0]);
      RunIsTransparent(f, c.cache, keys[1..]);
      var t := Run(f, cache, keys);
      forall i | 0 <= i < |keys|
        ensures t.outputs[i] == f(keys[i])
      {
        if i > 0 {
          assert t.outputs[i] == Run(f, c.cache, keys[1..]).outputs[i - 1];
          assert keys[i] == keys[1..][i - 1];
        }
      }
    }
  }

  /** When `f` succeeds on every key, it is invoked exactly once per distinct
      key that was not already cached, however often each key repeats. */
  lemma {:induction false} RunInvokesOncePerKey<K(!new), V, E>(f: K -> Result<V, E>, cache: map<K, V>, keys: seq<K>)
    requires forall i :: 0 <= i < |keys| ==> f(keys[i]).Success?
    ensures Run(f, cache, keys).invocations == |KeySet(keys) - cache.Keys|
    decreases |keys|
  {
    if |keys| == 0 {
      assert KeySet(keys) == {};
    } else {
      var a := keys[0];
      var c := Memoized1(f, cache, a);
      SuccessfulCallAddsKey(f, cache, a);
      SuccessTail(f, keys);
      RunInvokesOncePerKey(f, c.cache, keys[1..]);
      KeySetCons(keys);
      NewKeysStep(cache.Keys, a, KeySet(keys[1..]));
    }
  }

  /** When `f` succeeds on every key, the run leaves every one of its keys cached. */
  lemma {:induction false} RunCachesEveryKey<K(!new), V, E>(f: K -> Result<V, E>, cache: map<K, V>, keys: seq<K>)
    requires forall i :: 0 <= i < |keys| ==> f(keys[i]).Success?
    ensures Run(f, cache, keys).cache.Keys == cache.Keys + KeySet(keys)
    decreases |keys|
  {
    if |keys| == 0 {
      assert KeySet(keys) == {};
    } else {
      var a := keys[0];
      var c := Memoized1(f, cache, a);
      SuccessfulCallAddsKey(f, cache, a);
      SuccessTail(f, keys);
      RunCachesEveryKey(f, c.cache, keys[1..]);
      KeySetCons(keys);
    }
  }

  lemma SuccessTail<K, V, E>(f: K -> Result<V, E>, keys: seq<K>)
    requires |keys| > 0
    requires forall i :: 0 <= i < |keys| ==> f(keys[i]).Success?
    ensures forall i :: 0 <= i < |keys[1..]| ==> f(keys[1..][i]).Success?
  {
  }

  /** A successful call adds its own key to the cache and no other. */
  lemma SuccessfulCallAddsKey<A(!new), R, E>(f: A -> Result<R, E>, cache: map<A, R>, a: A)
    requires f(a).Success?
    ensures Memoized1(f, cache, a).cache.Keys == cache.Keys + {a}
  {
  }

  lemma KeySetCons<K>(keys: seq<K>)
    requires |keys| > 0
    ensures KeySet(keys) == {keys[0]} + KeySet(keys[1..])
  {
  }

  /** Counting the keys still to be computed, one key at a time. */
  lemma NewKeysStep<K>(cached: set<K>, a: K, rest: set<K>)
    ensures |({a} + rest) - cached| == (if a in cached then 0 else 1) + |rest - (cached + {a})|
  {
    if a in cached {
      assert ({a} + rest) - cached == rest - (cached + {a});
    } else {
      assert ({a} + rest) - cached == {a} + (rest - (cached + {a}));
    }
  }
}
