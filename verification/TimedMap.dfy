/** The abstract expiring cache: a map of stamped values that forgets a value the moment it is
    old enough, described by the history of the calls alone; and the cache that forgets lazily,
    described by the same history. */
module TimedMaps {
  import opened Outcomes

  datatype Timed<V> = Timed(value: V, stamp: int)

  /** When an entry expires, and whether a get that returns a value stamps its key anew. */
  datatype Policy = Policy(expireTime: int, renews: bool)

  /** The calls to an expiring cache. Store is an add or an update; Got is a get and its answer. Collect
      is a replacement, which every add and update ends with and every size, getAllKeys and
      forceReplace begins with. */
  datatype Event<K, V> =
    | Store(key: K, value: V, stamp: int)
    | Got(key: K, answer: Option<V>, stamp: int)
    | Remove(key: K)
    | Clear
    | Collect(time: int)

  // ---------------------------------------------------------------- forgetting at once

  function Apply<K, V>(m: map<K, Timed<V>>, e: Event<K, V>, p: Policy): map<K, Timed<V>> {
    match e
    case Store(k, v, t) => m[k := Timed(v, t)]
    case Got(k, Some(v), t) => if p.renews then m[k := Timed(v, t)] else m
    case Got(_, None, _) => m
    case Remove(k) => m - {k}
    case Clear => map[]
    case Collect(_) => m
  }

  /** Every key with the value and the stamp it was given last, expired or not. */
  function Replay<K, V>(history: seq<Event<K, V>>, p: Policy): map<K, Timed<V>> {
    if history == [] then map[] else Apply(Replay(history[..|history| - 1], p), history[|history| - 1], p)
  }

  lemma ReplayNext<K, V>(history: seq<Event<K, V>>, e: Event<K, V>, p: Policy)
    ensures Replay(history + [e], p) == Apply(Replay(history, p), e, p)
  {
    assert (history + [e])[..|history|] == history;
  }

  predicate IsElapsed(stamp: int, now: int, expireTime: int) {
    now - stamp >= expireTime
  }

  /** The value of a key that has not expired at the given time. */
  function Visible<K, V>(m: map<K, Timed<V>>, k: K, now: int, expireTime: int): Option<V> {
    if k in m && now - m[k].stamp < expireTime then Some(m[k].value) else None
  }

  ghost function Live<K, V>(m: map<K, Timed<V>>, now: int, expireTime: int): set<K> {
    set k | k in m && now - m[k].stamp < expireTime
  }

  /** The call gives the key its value and a stamp: an add, an update, or a get that returns the value
      and renews. */
  predicate Stores<K(==), V>(e: Event<K, V>, k: K, p: Policy) {
    (e.Store? && e.key == k) || (p.renews && e.Got? && e.answer.Some? && e.key == k)
  }

  function Stored<K, V>(e: Event<K, V>): Timed<V>
    requires e.Store? || (e.Got? && e.answer.Some?)
  {
    Timed(if e.Store? then e.value else e.answer.value, e.stamp)
  }

  predicate Affects<K(==), V>(e: Event<K, V>, k: K, p: Policy) {
    Stores(e, k, p) || (e.Remove? && e.key == k) || e.Clear?
  }

  /** Call i gave the key its value, and no later call changed that. */
  ghost predicate LastStore<K, V>(history: seq<Event<K, V>>, k: K, i: nat, p: Policy) {
    && i < |history| && Stores(history[i], k, p)
    && forall j :: i < j < |history| ==> !Affects(history[j], k, p)
  }

  lemma {:induction false} Unaffected<K, V>(history: seq<Event<K, V>>, n: nat, k: K, p: Policy)
    requires n <= |history| && forall i :: n <= i < |history| ==> !Affects(history[i], k, p)
    ensures k in Replay(history, p) <==> k in Replay(history[..n], p)
    ensures k in Replay(history, p) ==> Replay(history, p)[k] == Replay(history[..n], p)[k]
    decreases |history|
  {
    if n == |history| {
      assert history[..n] == history;
    } else {
      var init := history[..|history| - 1];
      assert init[..n] == history[..n];
      assert !Affects(history[|history| - 1], k, p);
      Unaffected(init, n, k, p);
    }
  }

  /** One past the last call that concerns the key, or zero. */
  function LastAffecting<K(==), V>(history: seq<Event<K, V>>, k: K, p: Policy): (n: nat)
    ensures n <= |history| && (0 < n ==> Affects(history[n - 1], k, p))
    ensures forall i :: n <= i < |history| ==> !Affects(history[i], k, p)
  {
    if history == [] then 0
    else if Affects(history[|history| - 1], k, p) then |history|
    else LastAffecting(history[..|history| - 1], k, p)
  }

  lemma {:induction false} ReplayedIsStored<K, V>(history: seq<Event<K, V>>, k: K, p: Policy) returns (i: nat)
    requires k in Replay(history, p)
    ensures LastStore(history, k, i, p)
  {
    var n := LastAffecting(history, k, p);
    Unaffected(history, n, k, p);
    assert n != 0 && history[..n][..n - 1] == history[..n - 1];
    i := n - 1;
  }

  lemma {:induction false} StoredIsReplayed<K, V>(history: seq<Event<K, V>>, k: K, i: nat, p: Policy)
    requires LastStore(history, k, i, p)
    ensures k in Replay(history, p) && Replay(history, p)[k] == Stored(history[i])
  {
    Unaffected(history, i + 1, k, p);
    assert history[..i + 1][..i] == history[..i];
  }

  /** Key k was last given the value v, less than the expire time ago. */
  ghost predicate FreshlyStored<K, V>(history: seq<Event<K, V>>, k: K, v: V, now: int, p: Policy) {
    exists i: nat :: && LastStore(history, k, i, p) && Stored(history[i]).value == v
                     && now - history[i].stamp < p.expireTime
  }

  /** A lookup at some time finds v exactly when the last call that concerned the key stored v, or was a
      renewing get that returned it, less than the expire time ago. */
  lemma {:induction false} VisibleIsLastStore<K, V>(history: seq<Event<K, V>>, k: K, now: int, p: Policy, v: V)
    ensures Visible(Replay(history, p), k, now, p.expireTime) == Some(v) <==> FreshlyStored(history, k, v, now, p)
  {
    if k in Replay(history, p) {
      var i := ReplayedIsStored(history, k, p);
      StoredIsReplayed(history, k, i, p);
    }
    if FreshlyStored(history, k, v, now, p) {
      var i: nat :| && LastStore(history, k, i, p) && Stored(history[i]).value == v
                    && now - history[i].stamp < p.expireTime;
      StoredIsReplayed(history, k, i, p);
    }
  }

  // ---------------------------------------------------------------- forgetting lazily

  /** Entries go only when a replacement finds them expired, or a get that returns nothing. */
  function ApplyLazily<K, V>(c: map<K, Timed<V>>, e: Event<K, V>, p: Policy): map<K, Timed<V>> {
    match e
    case Store(k, v, t) => c[k := Timed(v, t)]
    case Got(k, Some(v), t) => if p.renews then c[k := Timed(v, t)] else c
    case Got(k, None, _) => c - {k}
    case Remove(k) => c - {k}
    case Clear => map[]
    case Collect(t) => map k | k in c && !IsElapsed(c[k].stamp, t, p.expireTime) :: c[k]
  }

  function Cached<K, V>(history: seq<Event<K, V>>, p: Policy): map<K, Timed<V>> {
    if history == [] then map[] else ApplyLazily(Cached(history[..|history| - 1], p), history[|history| - 1], p)
  }

  lemma CachedNext<K, V>(history: seq<Event<K, V>>, e: Event<K, V>, p: Policy)
    ensures Cached(history + [e], p) == ApplyLazily(Cached(history, p), e, p)
  {
    assert (history + [e])[..|history|] == history;
  }

  /** The call throws out a key of that stamp: a replacement that finds it expired, or a get that
      returns nothing. */
  predicate Evicts<K(==), V>(e: Event<K, V>, k: K, stamp: int, p: Policy) {
    (e.Got? && e.answer.None? && e.key == k) || (e.Collect? && IsElapsed(stamp, e.time, p.expireTime))
  }

  /** Nothing has thrown out what call i stored. */
  ghost predicate Unevicted<K, V>(history: seq<Event<K, V>>, k: K, i: nat, p: Policy)
    requires i < |history| && Stores(history[i], k, p)
  {
    forall j :: i < j < |history| ==> !Evicts(history[j], k, history[i].stamp, p)
  }

  lemma {:induction false} StoredIsCached<K, V>(history: seq<Event<K, V>>, k: K, i: nat, p: Policy)
    requires LastStore(history, k, i, p)
    ensures k in Cached(history, p) <==> Unevicted(history, k, i, p)
    ensures k in Cached(history, p) ==> Cached(history, p)[k] == Stored(history[i])
  {
    var n := |history| - 1;
    if i < n {
      var init := history[..n];
      assert LastStore(init, k, i, p) && !Affects(history[n], k, p);
      StoredIsCached(init, k, i, p);
      assert Unevicted(history, k, i, p) <==>
             Unevicted(init, k, i, p) && !Evicts(history[n], k, history[i].stamp, p);
    }
  }

  lemma {:induction false} CachedIsReplayed<K, V>(history: seq<Event<K, V>>, k: K, p: Policy)
    requires k in Cached(history, p)
    ensures k in Replay(history, p)
  {
    var n := |history| - 1;
    if k in Cached(history[..n], p) {
      CachedIsReplayed(history[..n], k, p);
    }
  }

  /** The key has expired but is still cached. Only calls and their times count: the key was given its
      last stamp the expire time ago or earlier, and since it expired no add, update, size, getAllKeys
      or forceReplace has run, nor has a get of it come back empty. */
  ghost predicate AwaitsCollection<K, V>(history: seq<Event<K, V>>, k: K, now: int, p: Policy) {
    exists i: nat :: && LastStore(history, k, i, p) && IsElapsed(history[i].stamp, now, p.expireTime)
                     && Unevicted(history, k, i, p)
  }

  lemma {:induction false} AwaitsIsCached<K, V>(history: seq<Event<K, V>>, k: K, now: int, p: Policy)
    ensures AwaitsCollection(history, k, now, p) <==>
            k in Cached(history, p) && IsElapsed(Cached(history, p)[k].stamp, now, p.expireTime)
  {
    if k in Cached(history, p) {
      CachedIsReplayed(history, k, p);
      var i := ReplayedIsStored(history, k, p);
      StoredIsCached(history, k, i, p);
    }
    if AwaitsCollection(history, k, now, p) {
      var i: nat :| && LastStore(history, k, i, p) && IsElapsed(history[i].stamp, now, p.expireTime)
                    && Unevicted(history, k, i, p);
      StoredIsCached(history, k, i, p);
    }
  }

  // ---------------------------------------------------------------- the difference goes unnoticed

  /** The lazy cache c holds what is left of the timed map m: what is missing has expired. */
  ghost predicate Reflects<K(!new), V>(c: map<K, Timed<V>>, m: map<K, Timed<V>>, clock: int, p: Policy) {
    && (forall k :: k in c ==> k in m && m[k] == c[k])
    && (forall k :: k in m && k !in c ==> IsElapsed(m[k].stamp, clock, p.expireTime))
    && (forall k :: k in m ==> m[k].stamp <= clock)
  }

  /** The call can come next: times do not decrease, and a get that returns nothing is one of a key that
      is not visible. */
  ghost predicate Possible<K, V>(m: map<K, Timed<V>>, e: Event<K, V>, clock: int, now: int, p: Policy) {
    clock <= now &&
    match e
    case Store(_, _, t) => clock <= t <= now
    case Got(k, answer, t) => clock <= t <= now && (answer.None? ==> Visible(m, k, now, p.expireTime).None?)
    case Collect(t) => t == now
    case _ => true
  }

  lemma {:induction false} StepReflects<K(!new), V>(c: map<K, Timed<V>>, m: map<K, Timed<V>>, e: Event<K, V>,
                                                    clock: int, now: int, p: Policy)
    requires Reflects(c, m, clock, p) && Possible(m, e, clock, now, p)
    ensures Reflects(ApplyLazily(c, e, p), Apply(m, e, p), now, p)
  {
  }

  lemma LaterReflects<K(!new), V>(c: map<K, Timed<V>>, m: map<K, Timed<V>>, clock: int, now: int, p: Policy)
    requires Reflects(c, m, clock, p) && clock <= now
    ensures Reflects(c, m, now, p)
  {
  }

  /** Throwing out any expired keys goes unnoticed: nobody needs to know which, or when. */
  lemma {:induction false} CollectReflects<K(!new), V>(c: map<K, Timed<V>>, m: map<K, Timed<V>>, clock: int, p: Policy, s: set<K>)
    requires Reflects(c, m, clock, p)
    requires forall k :: k in s && k in c ==> IsElapsed(c[k].stamp, clock, p.expireTime)
    ensures Reflects(c - s, m, clock, p)
  {
  }

  /** A replacement leaves exactly the live keys. */
  lemma {:induction false} CollectLeavesLive<K(!new), V>(c: map<K, Timed<V>>, m: map<K, Timed<V>>, clock: int, now: int, p: Policy)
    requires Reflects(c, m, clock, p) && clock <= now
    ensures ApplyLazily(c, Event<K, V>.Collect(now), p).Keys == Live(m, now, p.expireTime)
  {
  }
}
