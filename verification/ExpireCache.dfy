/** Poco/AbstractCache.h over ExpireStrategy and AccessExpireStrategy. Expired entries are collected
    lazily, whenever a call happens to run the replacement; to its callers the cache is nevertheless
    the timed map of TimedMaps. Every call is given the time it happens at; an addition may be
    stamped a little earlier than the replacement that ends it runs. */
module ExpireCaches {
  import opened Outcomes
  import opened Sequences
  import opened TimedMaps
  import opened ExpireStrategies

  /** Data and stamps together are the cached entries c. */
  ghost predicate Holds<K(!new), V>(data: map<K, V>, stamps: map<K, int>, c: map<K, Timed<V>>) {
    && data.Keys == stamps.Keys == c.Keys
    && forall k :: k in c ==> c[k] == Timed(data[k], stamps[k])
  }

  lemma StoreHolds<K(!new), V>(data: map<K, V>, stamps: map<K, int>, c: map<K, Timed<V>>, k: K, v: V, stamp: int)
    requires Holds(data, stamps, c)
    ensures Holds(data[k := v], stamps[k := stamp], c[k := Timed(v, stamp)])
  {
  }

  /** Stamping a cached key anew. */
  lemma RenewHolds<K(!new), V>(data: map<K, V>, stamps: map<K, int>, c: map<K, Timed<V>>, k: K, stamp: int)
    requires Holds(data, stamps, c) && k in data
    ensures Holds(data, stamps[k := stamp], c[k := Timed(data[k], stamp)])
  {
    StoreHolds(data, stamps, c, k, data[k], stamp);
    AssignSame(data, k);
  }

  lemma RemoveHolds<K(!new), V>(data: map<K, V>, stamps: map<K, int>, c: map<K, Timed<V>>, k: K)
    requires Holds(data, stamps, c)
    ensures Holds(data - {k}, stamps - {k}, c - {k})
  {
  }

  lemma CollectHolds<K(!new), V>(data: map<K, V>, stamps: map<K, int>, c: map<K, Timed<V>>, now: int, p: Policy)
    requires Holds(data, stamps, c)
    ensures var expired := Expired(stamps, now, p.expireTime);
            Holds(data - expired, stamps - expired, ApplyLazily(c, Event<K, V>.Collect(now), p))
  {
  }

  lemma DropStamped<K>(stamps: map<K, int>, k: K, stamp: int)
    ensures stamps[k := stamp] - {k} == stamps - {k}
  {
  }

  // ---------------------------------------------------------------- what a get answers

  /** What a get finds in the cached entries. The entry is tested against the stamp it has, or against
      the one that the get gives it before. */
  function LazyAnswer<K, V>(c: map<K, Timed<V>>, k: K, stamp: int, now: int, p: Policy): Option<V> {
    if k in c && !IsElapsed(if p.renews then stamp else c[k].stamp, now, p.expireTime) then Some(c[k].value) else None
  }

  lemma {:induction false} PlainGetAgrees<K(!new), V>(history: seq<Event<K, V>>, clock: int, k: K, stamp: int, now: int, p: Policy)
    requires Reflects(Cached(history, p), Replay(history, p), clock, p) && clock <= now && !p.renews
    ensures LazyAnswer(Cached(history, p), k, stamp, now, p) == Visible(Replay(history, p), k, now, p.expireTime)
  {
    assert k in Cached(history, p) ==> Replay(history, p)[k] == Cached(history, p)[k];
  }

  /** A get that stamps before it tests agrees with the timed map, unless the key has expired, awaits
      collection, and the test comes soon enough after the new stamp. */
  lemma {:induction false} RenewingGetAgrees<K(!new), V>(history: seq<Event<K, V>>, clock: int, k: K, stamp: int, now: int, p: Policy)
    requires Reflects(Cached(history, p), Replay(history, p), clock, p) && clock <= stamp <= now && p.renews
    ensures LazyAnswer(Cached(history, p), k, stamp, now, p) == Visible(Replay(history, p), k, now, p.expireTime)
            <==> !(AwaitsCollection(history, k, now, p) && !IsElapsed(stamp, now, p.expireTime))
  {
    AwaitsIsCached(history, k, now, p);
    assert k in Cached(history, p) ==> Replay(history, p)[k] == Cached(history, p)[k];
  }

  /** What a get answers, told from the calls: the value stored last, if it has not been thrown out and
      passes the test. */
  ghost predicate AnswersFrom<K, V>(history: seq<Event<K, V>>, k: K, stamp: int, now: int, p: Policy, i: nat) {
    && LastStore(history, k, i, p) && Unevicted(history, k, i, p)
    && now - (if p.renews then stamp else history[i].stamp) < p.expireTime
  }

  lemma {:induction false} AnswerIsStored<K, V>(history: seq<Event<K, V>>, k: K, stamp: int, now: int, p: Policy)
    ensures var answer := LazyAnswer(Cached(history, p), k, stamp, now, p);
            && (answer.Some? ==> exists i: nat :: AnswersFrom(history, k, stamp, now, p, i) && Stored(history[i]).value == answer.value)
            && (answer.None? ==> forall i: nat :: !AnswersFrom(history, k, stamp, now, p, i))
  {
    if k in Cached(history, p) {
      CachedIsReplayed(history, k, p);
      var i := ReplayedIsStored(history, k, p);
      StoredIsCached(history, k, i, p);
    }
    forall i: nat | LastStore(history, k, i, p)
      ensures k in Cached(history, p) <==> Unevicted(history, k, i, p)
      ensures k in Cached(history, p) ==> Cached(history, p)[k] == Stored(history[i])
    {
      StoredIsCached(history, k, i, p);
    }
  }

  lemma CachedVisible<K(!new), V>(c: map<K, Timed<V>>, m: map<K, Timed<V>>, k: K, clock: int, now: int, p: Policy)
    requires Reflects(c, m, clock, p) && clock <= now
    ensures Visible(c, k, now, p.expireTime) == Visible(m, k, now, p.expireTime)
  {
    assert k in c ==> m[k] == c[k];
  }

  /** When a key is visible, told from the calls: its last store, or renewing get that returned it, is
      less than the expire time ago. */
  lemma {:induction false} VisibleStamp<K, V>(history: seq<Event<K, V>>, k: K, now: int, p: Policy)
    ensures var found := Visible(Replay(history, p), k, now, p.expireTime);
            && (found.Some? ==> FreshlyStored(history, k, found.value, now, p))
            && (found.None? ==> forall i: nat :: LastStore(history, k, i, p) ==> now - history[i].stamp >= p.expireTime)
  {
    var found := Visible(Replay(history, p), k, now, p.expireTime);
    if found.Some? {
      VisibleIsLastStore(history, k, now, p, found.value);
    } else {
      forall i: nat | LastStore(history, k, i, p) ensures now - history[i].stamp >= p.expireTime {
        StoredIsReplayed(history, k, i, p);
      }
    }
  }

  /** A renewing get keeps the key visible for another expire time. */
  lemma {:induction false} RenewedIsVisible<K, V>(history: seq<Event<K, V>>, k: K, v: V, stamp: int, t: int, p: Policy)
    requires p.renews && !IsElapsed(stamp, t, p.expireTime)
    ensures Visible(Replay(history + [Got(k, Some(v), stamp)], p), k, t, p.expireTime) == Some(v)
  {
    ReplayNext(history, Got(k, Some(v), stamp), p);
  }

  lemma GetLeaves<K, V>(history: seq<Event<K, V>>, k: K, result: Option<V>, stamp: int, p: Policy)
    ensures result.Some? && !p.renews ==> Replay(history + [Got(k, result, stamp)], p) == Replay(history, p)
    ensures result.Some? && p.renews ==>
              forall t :: t - stamp < p.expireTime ==>
                Visible(Replay(history + [Got(k, result, stamp)], p), k, t, p.expireTime) == result
  {
    ReplayNext(history, Got(k, result, stamp), p);
    if result.Some? && p.renews {
      forall t | t - stamp < p.expireTime
        ensures Visible(Replay(history + [Got(k, result, stamp)], p), k, t, p.expireTime) == result
      {
        RenewedIsVisible(history, k, result.value, stamp, t, p);
      }
    }
  }

  class ExpireCache<K(==, !new), V> {
    const strategy: ExpireStrategy<K>
    var data: map<K, V>
    /** What the callers did. */
    ghost var history: seq<Event<K, V>>
    /** The latest time at which a call was made. */
    ghost var clock: int

    ghost predicate Synced()
      reads this, strategy
    {
      strategy.Valid() && data.Keys == strategy.stamps.Keys
    }

    ghost function Rules(): Policy {
      Policy(strategy.expireTime, strategy.renewsOnGet)
    }

    /** What is in the cache is what the history says, and is as good as the timed map. */
    ghost predicate Valid()
      reads this, strategy
    {
      && Synced() && Holds(data, strategy.stamps, Cached(history, Rules()))
      && Reflects(Cached(history, Rules()), Replay(history, Rules()), clock, Rules())
    }

    constructor (strategy: ExpireStrategy<K>, now: int)
      requires strategy.Valid() && strategy.stamps == map[]
      ensures this.strategy == strategy && Valid() && history == [] && clock == now
    {
      this.strategy := strategy;
      data, history, clock := map[], [], now;
    }

    /** Appends to the history what data and stamps have undergone already. */
    ghost method Record(e: Event<K, V>, now: int)
      requires Synced() && Holds(data, strategy.stamps, ApplyLazily(Cached(history, Rules()), e, Rules()))
      requires Reflects(Cached(history, Rules()), Replay(history, Rules()), clock, Rules())
      requires Possible(Replay(history, Rules()), e, clock, now, Rules())
      modifies `history, `clock
      ensures Valid() && history == old(history) + [e] && clock == now
    {
      StepReflects(Cached(history, Rules()), Replay(history, Rules()), e, clock, now, Rules());
      ReplayNext(history, e, Rules());
      CachedNext(history, e, Rules());
      history, clock := history + [e], now;
    }

    /** A call that changes nothing takes place. */
    ghost method Tick(now: int)
      requires Valid() && clock <= now
      modifies `clock
      ensures Valid() && clock == now
    {
      LaterReflects(Cached(history, Rules()), Replay(history, Rules()), clock, now, Rules());
      clock := now;
    }

    method DoRemove(key: K)
      requires Synced()
      modifies this`data, strategy
      ensures Synced() && data == old(data) - {key} && strategy.stamps == old(strategy.stamps) - {key}
    {
      if key in data {
        strategy.OnRemove(key);
        data := data - {key};
      } else {
        DropAbsent(data, key);
        DropAbsent(strategy.stamps, key);
      }
    }

    method RemoveAll(delMe: set<K>)
      requires Synced()
      modifies this`data, strategy
      ensures Synced() && data == old(data) - delMe && strategy.stamps == old(strategy.stamps) - delMe
    {
      var left := delMe;
      assert delMe - left == {};
      while left != {}
        invariant left <= delMe && Synced()
        invariant data == old(data) - (delMe - left) && strategy.stamps == old(strategy.stamps) - (delMe - left)
        decreases |left|
      {
        var key :| key in left;
        assert delMe - left + {key} == delMe - (left - {key});
        DropOneMore(old(data), delMe - left, key);
        DropOneMore(old(strategy.stamps), delMe - left, key);
        DoRemove(key);
        left := left - {key};
      }
      assert delMe - left == delMe;
    }

    /** Runs at any time, any number of times, without the callers noticing. */
    method DoReplace(now: int)
      requires Valid() && clock <= now
      modifies this, strategy
      ensures Valid() && clock == now && history == old(history) + [Collect(now)]
      ensures data.Keys == Live(Replay(history, Rules()), now, strategy.expireTime)
    {
      ghost var c := Cached(history, Rules());
      CollectHolds(data, strategy.stamps, c, now, Rules());
      CollectLeavesLive(c, Replay(history, Rules()), clock, now, Rules());
      ReplayNext(history, Collect(now), Rules());
      RemoveExpired(now);
      Record(Collect(now), now);
    }

    method RemoveExpired(now: int)
      requires Synced()
      modifies this`data, strategy
      ensures Synced()
      ensures data == old(data) - Expired(old(strategy.stamps), now, strategy.expireTime)
      ensures strategy.stamps == old(strategy.stamps) - Expired(old(strategy.stamps), now, strategy.expireTime)
    {
      var delMe := strategy.OnReplace({}, _ => now);
      assert delMe == Expired(strategy.stamps, now, strategy.expireTime);
      RemoveAll(delMe);
    }

    method DoAdd(key: K, value: V, stamp: int, now: int)
      requires Valid() && clock <= stamp <= now
      modifies this, strategy
      ensures Valid() && clock == now && history == old(history) + [Store(key, value, stamp)] + [Collect(now)]
      ensures data.Keys == Live(Replay(history, Rules()), now, strategy.expireTime)
    {
      StoreHolds(data, strategy.stamps, Cached(history, Rules()), key, value, stamp);
      DropAssign(data, key, value);
      DropAssign(strategy.stamps, key, stamp);
      DoRemove(key);
      strategy.OnAdd(key, stamp);
      data := data[key := value];
      Record(Store(key, value, stamp), stamp);
      DoReplace(now);
    }

    method DoUpdate(key: K, value: V, stamp: int, now: int)
      requires Valid() && clock <= stamp <= now
      modifies this, strategy
      ensures Valid() && clock == now && history == old(history) + [Store(key, value, stamp)] + [Collect(now)]
      ensures data.Keys == Live(Replay(history, Rules()), now, strategy.expireTime)
    {
      StoreHolds(data, strategy.stamps, Cached(history, Rules()), key, value, stamp);
      if key !in data {
        strategy.OnAdd(key, stamp);
        data := data[key := value];
      } else {
        strategy.OnUpdate(key, stamp);
        data := data[key := value];
      }
      Record(Store(key, value, stamp), stamp);
      DoReplace(now);
    }

    method RemoveKey(key: K, now: int)
      requires Valid() && clock <= now
      modifies this, strategy
      ensures Valid() && clock == now && history == old(history) + [Remove(key)]
      ensures data == old(data) - {key}
    {
      RemoveHolds(data, strategy.stamps, Cached(history, Rules()), key);
      DoRemove(key);
      Record(Remove(key), now);
    }

    /** True exactly if the key was stored, or renewed, less than the expire time ago. */
    method DoHas(key: K, now: int) returns (result: bool)
      requires Valid() && clock <= now
      modifies this`clock
      ensures Valid() && clock == now
      ensures result <==> Visible(Replay(history, Rules()), key, now, strategy.expireTime).Some?
      ensures result <==> exists i: nat ::
                LastStore(history, key, i, Rules()) && now - history[i].stamp < strategy.expireTime
    {
      VisibleStamp(history, key, now, Rules());
      CachedVisible(Cached(history, Rules()), Replay(history, Rules()), key, clock, now, Rules());
      result := false;
      if key in data {
        result := strategy.OnIsValid(key, now);
      }
      Tick(now);
    }

    /** The two notifications of a get, in their order: first Get, then IsValid. */
    method NotifyGet(key: K, stamp: int, now: int) returns (valid: bool)
      requires Synced() && key in data
      modifies strategy
      ensures Synced()
      ensures strategy.stamps == if strategy.renewsOnGet then old(strategy.stamps)[key := stamp] else old(strategy.stamps)
      ensures valid <==> !IsElapsed(strategy.stamps[key], now, strategy.expireTime)
    {
      strategy.OnGet(key, stamp);
      valid := strategy.OnIsValid(key, now);
    }

    /** What a get of a cached key does to data and stamps. */
    method ReadCached(key: K, stamp: int, now: int) returns (result: Option<V>)
      requires Synced() && key in data
      modifies this`data, strategy
      ensures Synced()
      ensures var s := if strategy.renewsOnGet then stamp else old(strategy.stamps)[key];
              result == if IsElapsed(s, now, strategy.expireTime) then None else Some(old(data)[key])
      ensures data == if result.None? then old(data) - {key} else old(data)
      ensures strategy.stamps == if result.None? then old(strategy.stamps) - {key}
                                 else if strategy.renewsOnGet then old(strategy.stamps)[key := stamp]
                                 else old(strategy.stamps)
    {
      var valid := NotifyGet(key, stamp, now);
      if !valid {
        DropStamped(old(strategy.stamps), key, stamp);
        DoRemove(key);
        result := None;
      } else {
        result := Some(data[key]);
      }
    }

    method GetCached(key: K, stamp: int, now: int) returns (result: Option<V>)
      requires Valid() && clock <= stamp <= now && key in data
      modifies this, strategy
      ensures Valid() && clock == now && history == old(history) + [Got(key, result, stamp)]
      ensures result == LazyAnswer(Cached(old(history), Rules()), key, stamp, now, Rules())
      ensures data == if result.None? then old(data) - {key} else old(data)
      ensures strategy.stamps == if result.None? then old(strategy.stamps) - {key}
                                 else if strategy.renewsOnGet then old(strategy.stamps)[key := stamp]
                                 else old(strategy.stamps)
    {
      ghost var c := Cached(history, Rules());
      RenewHolds(data, strategy.stamps, c, key, stamp);
      RemoveHolds(data, strategy.stamps, c, key);
      result := ReadCached(key, stamp, now);
      Record(Got(key, result, stamp), now);
    }

    /** For an ExpireStrategy the answer is that of the timed map: the value that was stored last, if
        that is less than the expire time ago. An AccessExpireStrategy stamps the key before it tests
        it, and a key that is returned stays visible for the expire time from that stamp. It gives a
        wrong answer exactly when the key has expired, awaits collection, and is tested less than the
        expire time after the new stamp: then it returns a value that has expired. */
    method DoGet(key: K, stamp: int, now: int) returns (result: Option<V>)
      requires Valid() && clock <= stamp <= now
      modifies this, strategy
      ensures Valid() && clock == now && history == old(history) + [Got(key, result, stamp)]
      // the answer
      ensures result.Some? ==> exists i: nat ::
                AnswersFrom(old(history), key, stamp, now, Rules(), i) && Stored(old(history)[i]).value == result.value
      ensures result.None? ==> forall i: nat :: !AnswersFrom(old(history), key, stamp, now, Rules(), i)
      ensures !strategy.renewsOnGet ==> result == Visible(Replay(old(history), Rules()), key, now, strategy.expireTime)
      ensures strategy.renewsOnGet ==>
                (result == Visible(Replay(old(history), Rules()), key, now, strategy.expireTime) <==>
                 !(AwaitsCollection(old(history), key, now, Rules()) && now - stamp < strategy.expireTime))
      // what it leaves behind
      ensures data == if result.None? then old(data) - {key} else old(data)
      ensures result.None? ==> key !in data && strategy.stamps == old(strategy.stamps) - {key}
      ensures result.Some? && !strategy.renewsOnGet ==>
                strategy.stamps == old(strategy.stamps) && Replay(history, Rules()) == Replay(old(history), Rules())
      ensures result.Some? && strategy.renewsOnGet ==>
                && strategy.stamps == old(strategy.stamps)[key := stamp]
                && forall t :: t - stamp < strategy.expireTime ==>
                     Visible(Replay(history, Rules()), key, t, strategy.expireTime) == result
    {
      ghost var h, p := history, Rules();
      if p.renews {
        RenewingGetAgrees(h, clock, key, stamp, now, p);
      } else {
        PlainGetAgrees(h, clock, key, stamp, now, p);
      }
      AnswerIsStored(h, key, stamp, now, p);
      if key in data {
        result := GetCached(key, stamp, now);
      } else {
        result := GetAbsent(key, stamp, now);
      }
      GetLeaves(h, key, result, stamp, p);
    }

    method GetAbsent(key: K, stamp: int, now: int) returns (result: Option<V>)
      requires Valid() && clock <= stamp <= now && key !in data
      modifies `history, `clock
      ensures Valid() && clock == now && history == old(history) + [Got(key, result, stamp)]
      ensures result == None == LazyAnswer(Cached(old(history), Rules()), key, stamp, now, Rules())
      ensures data == data - {key} && strategy.stamps == strategy.stamps - {key}
    {
      DropAbsent(Cached(history, Rules()), key);
      DropAbsent(data, key);
      DropAbsent(strategy.stamps, key);
      result := None;
      Record(Got(key, None, stamp), now);
    }

    method DoClear(now: int)
      requires Valid() && clock <= now
      modifies this, strategy
      ensures Valid() && clock == now && history == old(history) + [Clear]
      ensures data == map[]
    {
      strategy.OnClear();
      data := map[];
      Record(Clear, now);
    }

    method Size(now: int) returns (n: nat)
      requires Valid() && clock <= now
      modifies this, strategy
      ensures Valid() && clock == now && history == old(history) + [Collect(now)]
      ensures n == |Live(Replay(history, Rules()), now, strategy.expireTime)|
      ensures data.Keys == Live(Replay(history, Rules()), now, strategy.expireTime)
    {
      DoReplace(now);
      n := |data|;
      assert n == |data.Keys|;
    }

    method GetAllKeys(now: int) returns (result: set<K>)
      requires Valid() && clock <= now
      modifies this, strategy
      ensures Valid() && clock == now && history == old(history) + [Collect(now)]
      ensures result == data.Keys == Live(Replay(history, Rules()), now, strategy.expireTime)
    {
      DoReplace(now);
      result := CopyKeys(data);
    }
  }

  lemma OneStore(history: seq<Event<int, int>>, p: Policy)
    requires history == [Store(1, 7, 0), Collect(0)] && 0 < p.expireTime
    ensures LastStore(history, 1, 0, p) && Unevicted(history, 1, 0, p)
    ensures forall i: nat :: LastStore(history, 1, i, p) ==> i == 0
  {
  }

  method AddSeven(renewsOnGet: bool) returns (cache: ExpireCache<int, int>)
    ensures fresh(cache) && fresh(cache.strategy) && cache.Valid() && cache.clock == 0
    ensures cache.Rules() == Policy(25000, renewsOnGet) && cache.history == [Store(1, 7, 0), Collect(0)]
  {
    var strategy := new ExpireStrategy<int>(25000, renewsOnGet);
    cache := new ExpireCache<int, int>(strategy, 0);
    cache.DoAdd(1, 7, 0, 0);
  }

  /** The access variant revives what has expired: has() denies the key and get() returns it. */
  method AccessRevives() returns (had: bool, got: Option<int>)
    ensures !had && got == Some(7)
  {
    var cache := AddSeven(true);
    OneStore(cache.history, cache.Rules());
    assert AnswersFrom(cache.history, 1, 30000, 30000, cache.Rules(), 0);
    had := cache.DoHas(1, 30000);
    got := cache.DoGet(1, 30000, 30000);
  }

  method GetSeven(cache: ExpireCache<int, int>) returns (got: Option<int>)
    requires cache.Valid() && cache.clock == 0 && cache.history == [Store(1, 7, 0), Collect(0)]
    requires cache.strategy.expireTime == 25000
    modifies cache, cache.strategy
    ensures cache.Valid() && cache.clock == 20000 && got == Some(7)
    ensures Visible(Replay(cache.history, cache.Rules()), 1, 30000, 25000) == if cache.strategy.renewsOnGet then got else None
  {
    ghost var h, p := cache.history, cache.Rules();
    OneStore(h, p);
    assert AnswersFrom(h, 1, 20000, 20000, p, 0);
    StoredIsReplayed(h, 1, 0, p);
    got := cache.DoGet(1, 20000, 20000);
  }

  /** And it keeps alive what is read in time, which the other variant does not. */
  method AccessRenews(renewsOnGet: bool) returns (got: Option<int>, had: bool)
    ensures got == Some(7) && had == renewsOnGet
  {
    var cache := AddSeven(renewsOnGet);
    got := GetSeven(cache);
    had := cache.DoHas(1, 30000);
  }
}
