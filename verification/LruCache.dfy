/** Poco/AbstractCache.h over LRUStrategy: the cache holds the values, the strategy the order, and
    the two are changed by separate notifications. Together they are proved to be one bounded
    recency list. */
module LruCaches {
  import opened Outcomes
  import opened RecencyLists
  import opened LruStrategies
  import opened Sequences

  // ---------------------------------------------------------------- the abstraction

  /** The association list xs is what an order of keys and a map of values stand for, and the map
      has no other keys. */
  ghost predicate Tied<K(!new), V>(order: seq<K>, data: map<K, V>, xs: seq<Entry<K, V>>) {
    && |xs| == |order|
    && (forall i :: 0 <= i < |xs| ==> order[i] in data && xs[i] == Entry(order[i], data[order[i]]))
    && (forall k :: k in data ==> k in order)
  }

  lemma {:induction false} WithoutKeyMembers<K>(ks: seq<K>, k: K)
    ensures forall l :: l in WithoutKey(ks, k) ==> l in ks && l != k
    ensures forall l :: l in ks && l != k ==> l in WithoutKey(ks, k)
    ensures |WithoutKey(ks, k)| <= |ks|
    ensures DistinctSeq(ks) && k in ks ==> |WithoutKey(ks, k)| == |ks| - 1
  {
    if ks != [] {
      WithoutKeyMembers(ks[1..], k);
      assert ks == [ks[0]] + ks[1..];
      if ks[0] == k && DistinctSeq(ks) {
        WithoutKeyAbsent(ks[1..], k);
      }
    }
  }

  /** Removing a key from an order and from the list it stands for. */
  lemma {:induction false} WithoutTied<K, V>(order: seq<K>, xs: seq<Entry<K, V>>, k: K)
    requires |xs| == |order| && forall i :: 0 <= i < |xs| ==> xs[i].key == order[i]
    ensures var order', xs' := WithoutKey(order, k), Without(xs, k);
            && |xs'| == |order'|
            && (forall i :: 0 <= i < |xs'| ==> xs'[i].key == order'[i])
            && (forall e :: e in xs' ==> e in xs)
  {
    if xs != [] {
      WithoutTied(order[1..], xs[1..], k);
    }
  }

  lemma RemoveTied<K(!new), V>(order: seq<K>, data: map<K, V>, xs: seq<Entry<K, V>>, k: K)
    requires Tied(order, data, xs)
    ensures Tied(WithoutKey(order, k), data - {k}, Without(xs, k))
  {
    WithoutTied(order, xs, k);
    WithoutKeyMembers(order, k);
    var order', xs' := WithoutKey(order, k), Without(xs, k);
    forall i | 0 <= i < |xs'| ensures order'[i] in data - {k} && xs'[i] == Entry(order'[i], (data - {k})[order'[i]]) {
      assert xs'[i] in xs' && order'[i] in order';
      var j :| 0 <= j < |xs| && xs[j] == xs'[i];
    }
  }

  lemma PushTied<K(!new), V>(order: seq<K>, data: map<K, V>, xs: seq<Entry<K, V>>, k: K, v: V)
    requires Tied(order, data, xs) && k !in data
    ensures Tied([k] + order, data[k := v], [Entry(k, v)] + xs)
  {
    forall l | l in data[k := v] ensures l in [k] + order {
      if l == k {
        assert ([k] + order)[0] == k;
      }
    }
  }

  /** Storing a value under a key, new or old, and making the key the most recent. */
  lemma PutTied<K(!new), V>(order: seq<K>, data: map<K, V>, xs: seq<Entry<K, V>>, k: K, v: V)
    requires Tied(order, data, xs)
    ensures Tied([k] + WithoutKey(order, k), data[k := v], [Entry(k, v)] + Without(xs, k))
    ensures |[k] + WithoutKey(order, k)| <= |order| + 1
    ensures k !in data ==> WithoutKey(order, k) == order
    ensures (data - {k})[k := v] == data[k := v]
  {
    RemoveTied(order, data, xs, k);
    PushTied(WithoutKey(order, k), data - {k}, Without(xs, k), k, v);
    DropAssign(data, k, v);
    WithoutKeyMembers(order, k);
    if k !in data {
      assert k !in order;
      WithoutKeyAbsent(order, k);
    }
  }

  lemma {:induction false} TiedLookup<K(!new), V>(order: seq<K>, data: map<K, V>, xs: seq<Entry<K, V>>, k: K)
    requires Tied(order, data, xs)
    ensures Lookup(xs, k) == if k in data then Some(data[k]) else None
  {
    LookupMembers(xs, k);
    if Lookup(xs, k).Some? {
      var e := Entry(k, Lookup(xs, k).value);
      var i :| 0 <= i < |xs| && xs[i] == e;
    }
  }

  lemma TiedDistinct<K(!new), V>(order: seq<K>, data: map<K, V>, xs: seq<Entry<K, V>>)
    requires Tied(order, data, xs) && DistinctSeq(order)
    ensures Distinct(xs)
  {
  }

  lemma TiedHas<K(!new), V>(order: seq<K>, data: map<K, V>, xs: seq<Entry<K, V>>, k: K)
    requires Tied(order, data, xs)
    ensures HasKey(xs, k) <==> k in data
  {
    if k in data {
      var i :| 0 <= i < |order| && order[i] == k;
      assert xs[i].key == k;
    }
  }

  /** A get on cache and strategy is a get on the association list. */
  lemma GetTied<K(!new), V>(order: seq<K>, data: map<K, V>, xs: seq<Entry<K, V>>, k: K)
    requires Tied(order, data, xs) && DistinctSeq(order)
    ensures Lookup(xs, k) == if k in data then Some(data[k]) else None
    ensures k in data ==>
              && Tied([k] + WithoutKey(order, k), data, [Entry(k, data[k])] + Without(xs, k))
              && |[k] + WithoutKey(order, k)| == |order|
  {
    TiedLookup(order, data, xs, k);
    if k in data {
      PutTied(order, data, xs, k, data[k]);
      AssignSame(data, k);
      WithoutKeyMembers(order, k);
    }
  }

  /** Keeping only the first n keys keeps the first n entries. */
  lemma PrefixTied<K(!new), V>(order: seq<K>, data: map<K, V>, xs: seq<Entry<K, V>>, n: nat)
    requires Tied(order, data, xs) && n <= |order|
    ensures forall data': map<K, V> ::
              (forall k :: k in data' ==> k in data && data'[k] == data[k]) && (forall k :: k in data' <==> k in order[..n])
              ==> Tied(order[..n], data', xs[..n])
  {
    forall data': map<K, V> |
      (forall k :: k in data' ==> k in data && data'[k] == data[k]) && (forall k :: k in data' <==> k in order[..n])
      ensures Tied(order[..n], data', xs[..n])
    {
      forall i | 0 <= i < n ensures order[i] in data' {
        assert order[..n][i] == order[i];
      }
    }
  }

  function WithoutKeys<K(==)>(ks: seq<K>, s: set<K>): seq<K> {
    if ks == [] then []
    else if ks[0] in s then WithoutKeys(ks[1..], s)
    else [ks[0]] + WithoutKeys(ks[1..], s)
  }

  /** Removing keys one at a time, in whatever order, removes them all. */
  lemma {:induction false} WithoutKeysNext<K>(ks: seq<K>, s: set<K>, k: K)
    ensures WithoutKey(WithoutKeys(ks, s), k) == WithoutKeys(ks, s + {k})
  {
    if ks != [] {
      WithoutKeysNext(ks[1..], s, k);
      if ks[0] !in s {
        assert WithoutKeys(ks, s)[1..] == WithoutKeys(ks[1..], s);
      }
    }
  }

  lemma {:induction false} WithoutKeysNone<K>(ks: seq<K>, s: set<K>)
    requires forall k :: k in ks ==> k !in s
    ensures WithoutKeys(ks, s) == ks
  {
    if ks != [] {
      WithoutKeysNone(ks[1..], s);
    }
  }

  lemma {:induction false} WithoutKeysAll<K>(ks: seq<K>, s: set<K>)
    requires forall k :: k in ks ==> k in s
    ensures WithoutKeys(ks, s) == []
  {
    if ks != [] {
      WithoutKeysAll(ks[1..], s);
    }
  }

  lemma WithoutKeysFirst<K>(k: K, ks: seq<K>, s: set<K>)
    ensures WithoutKeys([k] + ks, s) == (if k in s then [] else [k]) + WithoutKeys(ks, s)
  {
    assert ([k] + ks)[1..] == ks;
  }

  lemma {:induction false} WithoutKeysJoin<K>(ks: seq<K>, ls: seq<K>, s: set<K>)
    ensures WithoutKeys(ks + ls, s) == WithoutKeys(ks, s) + WithoutKeys(ls, s)
  {
    if ks == [] {
      assert ks + ls == ls;
    } else {
      WithoutKeysJoin(ks[1..], ls, s);
      WithoutKeysFirst(ks[0], ks[1..] + ls, s);
      WithoutKeysFirst(ks[0], ks[1..], s);
      assert ks + ls == [ks[0]] + (ks[1..] + ls) && ks == [ks[0]] + ks[1..];
    }
  }

  /** Removing the keys beyond position n leaves the first n. */
  lemma {:induction false} WithoutBeyond<K>(ks: seq<K>, n: nat)
    requires n <= |ks| && DistinctSeq(ks)
    ensures WithoutKeys(ks, Beyond(ks, n)) == ks[..n]
  {
    assert ks == ks[..n] + ks[n..];
    WithoutKeysJoin(ks[..n], ks[n..], Beyond(ks, n));
    WithoutKeysAll(ks[n..], Beyond(ks, n));
    forall k | k in ks[..n] ensures k !in Beyond(ks, n) {
      var i :| 0 <= i < n && ks[i] == k;
    }
    WithoutKeysNone(ks[..n], Beyond(ks, n));
  }

  // ---------------------------------------------------------------- the cache

  class LruCache<K(==, !new), V> {
    const strategy: LruStrategy<K>
    var data: map<K, V>
    /** The cached entries, most recently used first. */
    ghost var recent: seq<Entry<K, V>>

    /** Strategy and data know the same keys: what holds whenever no notification is under way. */
    ghost predicate Synced()
      reads this, strategy
    {
      strategy.Valid() && forall k :: k in data <==> k in strategy.order
    }

    ghost predicate Valid()
      reads this, strategy
    {
      Synced() && Tied(strategy.order, data, recent) && |recent| <= strategy.size
    }

    constructor (strategy: LruStrategy<K>)
      requires strategy.Valid() && strategy.order == []
      ensures this.strategy == strategy && Valid() && recent == []
    {
      this.strategy := strategy;
      data, recent := map[], [];
    }

    lemma RecentDistinct()
      requires Valid()
      ensures Distinct(recent)
    {
      AgreeDistinct(strategy.keys, strategy.keyIndex, strategy.nextId, strategy.order);
      TiedDistinct(strategy.order, data, recent);
    }

    /** Records what data and strategy have become. */
    ghost method Record(xs: seq<Entry<K, V>>)
      requires Synced() && Tied(strategy.order, data, xs) && |xs| <= strategy.size
      modifies `recent
      ensures Valid() && recent == xs
    {
      recent := xs;
    }

    method DoRemove(key: K)
      requires Synced()
      modifies this`data, strategy
      ensures Synced() && strategy.order == WithoutKey(old(strategy.order), key)
      ensures data == old(data) - {key}
    {
      WithoutKeyMembers(strategy.order, key);
      if key in data {
        strategy.OnRemove(key);
        data := data - {key};
      } else {
        WithoutKeyAbsent(strategy.order, key);
        DropAbsent(data, key);
      }
    }

    method Remove(key: K)
      requires Valid()
      modifies this, strategy
      ensures Valid() && recent == Step(old(recent), Op.Remove(key), strategy.size)
      ensures TakenOut(old(recent), recent, key)
    {
      RecentDistinct();
      RemoveByPlace(recent, key, strategy.size);
      RemoveTied(strategy.order, data, recent, key);
      WithoutKeyMembers(strategy.order, key);
      DoRemove(key);
      Record(Without(recent, key));
    }

    /** Collects the keys the strategy wants gone and removes them, in any order. */
    method DoReplace()
      requires Synced() && Tied(strategy.order, data, recent)
      modifies this, strategy
      ensures Valid() && recent == Truncate(old(recent), strategy.size)
    {
      PrefixTied(strategy.order, data, recent, |Truncate(strategy.order, strategy.size)|);
      RemoveExcess();
      Record(Truncate(recent, strategy.size));
    }

    method RemoveExcess()
      requires Synced()
      modifies this`data, strategy
      ensures Synced() && strategy.order == Truncate(old(strategy.order), strategy.size)
      ensures forall k :: k in data ==> k in old(data) && data[k] == old(data)[k]
    {
      ghost var order := strategy.order;
      ghost var n := |Truncate(order, strategy.size)|;
      AgreeDistinct(strategy.keys, strategy.keyIndex, strategy.nextId, order);
      WithoutBeyond(order, n);
      var delMe := strategy.OnReplace({});
      assert delMe == Beyond(order, n);
      RemoveAll(delMe);
    }

    method RemoveAll(delMe: set<K>)
      requires Synced()
      modifies this`data, strategy
      ensures Synced() && strategy.order == WithoutKeys(old(strategy.order), delMe)
      ensures forall k :: k in data ==> k in old(data) && data[k] == old(data)[k]
    {
      ghost var order := strategy.order;
      var left := delMe;
      WithoutKeysNone(order, {});
      assert delMe - left == {};
      while left != {}
        invariant left <= delMe && Synced()
        invariant strategy.order == WithoutKeys(order, delMe - left)
        invariant forall k :: k in data ==> k in old(data) && data[k] == old(data)[k]
        decreases |left|
      {
        var key :| key in left;
        WithoutKeysNext(order, delMe - left, key);
        assert delMe - left + {key} == delMe - (left - {key});
        DoRemove(key);
        left := left - {key};
      }
      assert delMe - left == delMe;
    }

    method DoAdd(key: K, value: V)
      requires Valid()
      modifies this, strategy
      ensures Valid() && recent == Step(old(recent), Put(key, value), strategy.size)
      ensures PutInFront(old(recent), recent, Entry(key, value), strategy.size)
    {
      RecentDistinct();
      PutByPlace(recent, key, value, strategy.size);
      PutTied(strategy.order, data, recent, key, value);
      DoRemove(key);
      AgreeDistinct(strategy.keys, strategy.keyIndex, strategy.nextId, strategy.order);
      strategy.OnAdd(key);
      data := data[key := value];
      recent := [Entry(key, value)] + Without(recent, key);
      DoReplace();
    }

    method DoUpdate(key: K, value: V)
      requires Valid()
      modifies this, strategy
      ensures Valid() && recent == Step(old(recent), Put(key, value), strategy.size)
      ensures PutInFront(old(recent), recent, Entry(key, value), strategy.size)
    {
      RecentDistinct();
      PutByPlace(recent, key, value, strategy.size);
      PutTied(strategy.order, data, recent, key, value);
      AgreeDistinct(strategy.keys, strategy.keyIndex, strategy.nextId, strategy.order);
      if key !in data {
        strategy.OnAdd(key);
        data := data[key := value];
      } else {
        strategy.OnUpdate(key);
        data := data[key := value];
      }
      recent := [Entry(key, value)] + Without(recent, key);
      DoReplace();
    }

    method DoHas(key: K) returns (result: bool)
      requires Valid()
      ensures result <==> HasKey(recent, key)
    {
      TiedHas(strategy.order, data, recent, key);
      result := false;
      if key in data {
        result := strategy.OnIsValid(key);
      }
    }

    /** The two notifications of a get. The strategy knows every cached key, so it never asks for the
        removal of this entry. */
    method NotifyGet(key: K) returns (valid: bool)
      requires Synced() && key in data
      modifies strategy
      ensures Synced() && valid && strategy.order == [key] + WithoutKey(old(strategy.order), key)
    {
      AgreeDistinct(strategy.keys, strategy.keyIndex, strategy.nextId, strategy.order);
      WithoutKeyMembers(strategy.order, key);
      strategy.OnGet(key);
      valid := strategy.OnIsValid(key);
    }

    method DoGet(key: K) returns (result: Option<V>)
      requires Valid()
      modifies this, strategy
      ensures Valid() && result == Lookup(old(recent), key)
      ensures recent == Step(old(recent), Get(key), strategy.size)
      ensures result.None? ==> recent == old(recent) && !HasKey(recent, key)
      ensures result.Some? ==>
                exists p: nat :: && MovedToFront(old(recent), recent, p, Entry(key, result.value))
                                 && old(recent)[p] == recent[0] == Entry(key, result.value)
    {
      RecentDistinct();
      ghost var p := GetByPlace(recent, key, strategy.size);
      AgreeDistinct(strategy.keys, strategy.keyIndex, strategy.nextId, strategy.order);
      GetTied(strategy.order, data, recent, key);
      if key !in data {
        return None;
      }
      var valid := NotifyGet(key);
      if !valid {
        // doRemove would be called here
        assert false;
      }
      result := Some(data[key]);
      Record([Entry(key, data[key])] + Without(recent, key));
    }

    method DoClear()
      requires Valid()
      modifies this, strategy
      ensures Valid() && recent == Step(old(recent), Clear, strategy.size) == []
    {
      strategy.OnClear();
      data, recent := map[], [];
    }

    method Size() returns (n: nat)
      requires Valid()
      modifies this, strategy
      ensures Valid() && recent == old(recent) && n == |recent|
    {
      DoReplace();
      AgreeDistinct(strategy.keys, strategy.keyIndex, strategy.nextId, strategy.order);
      DistinctSize(strategy.order, data.Keys);
      n := |data|;
    }

    method GetAllKeys() returns (result: set<K>)
      requires Valid()
      modifies this, strategy
      ensures Valid() && recent == old(recent)
      ensures forall k :: k in result <==> exists i :: 0 <= i < |recent| && recent[i].key == k
    {
      DoReplace();
      result := CopyKeys(data);
      forall k ensures k in result <==> exists i :: 0 <= i < |recent| && recent[i].key == k {
        if k in result {
          var i :| 0 <= i < |strategy.order| && strategy.order[i] == k;
          assert recent[i].key == k;
        }
      }
    }
  }
}
