/** Poco/ExpireStrategy.h and Poco/AccessExpireStrategy.h: a time index (a multimap from
    timestamps to keys) and a map from keys to iterators into it, updated in place. */
module ExpireStrategies {
  import opened Outcomes
  import opened Sequences
  import opened TimedMaps

  datatype Stamped<K> = Stamped(time: int, key: K)

  /** An element of the multimap. */
  type Slot<K> = Node<Stamped<K>>

  function NewSlot<K>(id: nat, time: int, key: K): Slot<K> {
    Node(id, Stamped(time, key))
  }

  /** Where multimap::insert puts a new element: after all those that are not later. */
  function UpperBound<K>(slots: seq<Slot<K>>, time: int): (p: nat)
    ensures p <= |slots|
    ensures forall i :: 0 <= i < p ==> slots[i].item.time <= time
    ensures p < |slots| ==> time < slots[p].item.time
  {
    if slots == [] || time < slots[0].item.time then 0 else 1 + UpperBound(slots[1..], time)
  }

  function InsertSlot<K>(slots: seq<Slot<K>>, s: Slot<K>): seq<Slot<K>> {
    InsertAt(slots, UpperBound(slots, s.item.time), s)
  }

  /** The time index is sorted, its elements are told apart by their ids, and all ids are used up. */
  ghost predicate Ordered<K>(slots: seq<Slot<K>>, nextId: nat) {
    && (forall i, j :: 0 <= i < j < |slots| ==> slots[i].item.time <= slots[j].item.time)
    && (forall i, j :: 0 <= i < j < |slots| ==> slots[i].id != slots[j].id)
    && (forall i :: 0 <= i < |slots| ==> slots[i].id < nextId)
  }

  /** Every element of the index is the one its key's iterator points to, and stamps has its time. */
  ghost predicate Listed<K>(slots: seq<Slot<K>>, keys: map<K, nat>, stamps: map<K, int>) {
    forall i :: 0 <= i < |slots| ==>
      && slots[i].item.key in keys && keys[slots[i].item.key] == slots[i].id
      && slots[i].item.key in stamps && stamps[slots[i].item.key] == slots[i].item.time
  }

  /** Every key has an element in the index. */
  ghost predicate Covered<K(!new)>(slots: seq<Slot<K>>, keys: map<K, nat>) {
    forall k :: k in keys ==> exists i :: 0 <= i < |slots| && slots[i].item.key == k
  }

  /** Key map and time index correspond one to one, and the index is sorted by time. */
  ghost predicate Agree<K(!new)>(slots: seq<Slot<K>>, keys: map<K, nat>, nextId: nat, stamps: map<K, int>) {
    Ordered(slots, nextId) && Listed(slots, keys, stamps) && Covered(slots, keys) && keys.Keys == stamps.Keys
  }

  lemma PositionIs<K>(slots: seq<Slot<K>>, nextId: nat, p: nat)
    requires Ordered(slots, nextId) && p < |slots|
    ensures PositionOf(slots, slots[p].id) == p
  {
  }

  lemma InsertOrdered<K>(slots: seq<Slot<K>>, nextId: nat, s: Slot<K>)
    requires Ordered(slots, nextId) && s.id == nextId
    ensures Ordered(InsertSlot(slots, s), nextId + 1)
  {
    var p, slots' := UpperBound(slots, s.item.time), InsertSlot(slots, s);
    forall i, j | 0 <= i < j < |slots'| ensures slots'[i].item.time <= slots'[j].item.time && slots'[i].id != slots'[j].id {
      if i == p {
        assert slots'[j] == slots[j - 1];
      } else if j == p {
        assert slots'[i] == slots[i];
      } else {
        var i0, j0 := if i < p then i else i - 1, if j < p then j else j - 1;
        assert slots'[i] == slots[i0] && slots'[j] == slots[j0];
      }
    }
  }

  lemma EraseOrdered<K>(slots: seq<Slot<K>>, nextId: nat, p: nat)
    requires Ordered(slots, nextId) && p < |slots|
    ensures Ordered(EraseAt(slots, p), nextId)
  {
    var slots' := EraseAt(slots, p);
    forall i, j | 0 <= i < j < |slots'| ensures slots'[i].item.time <= slots'[j].item.time && slots'[i].id != slots'[j].id {
      var i0, j0 := if i < p then i else i + 1, if j < p then j else j + 1;
      assert slots'[i] == slots[i0] && slots'[j] == slots[j0];
    }
  }

  /** The iterator stored for a key leads to the element of that key. */
  lemma IndexLeadsToKey<K(!new)>(slots: seq<Slot<K>>, keys: map<K, nat>, nextId: nat, stamps: map<K, int>, k: K)
    requires Agree(slots, keys, nextId, stamps) && k in keys
    ensures PositionOf(slots, keys[k]) < |slots| && slots[PositionOf(slots, keys[k])].item.key == k
  {
    var i :| 0 <= i < |slots| && slots[i].item.key == k;
    PositionIs(slots, nextId, i);
  }

  lemma AddListed<K>(slots: seq<Slot<K>>, keys: map<K, nat>, stamps: map<K, int>, s: Slot<K>, p: nat)
    requires Listed(slots, keys, stamps) && s.item.key !in keys && p <= |slots|
    ensures Listed(InsertAt(slots, p, s), keys[s.item.key := s.id], stamps[s.item.key := s.item.time])
  {
    var slots' := InsertAt(slots, p, s);
    forall i | 0 <= i < |slots'| ensures slots'[i] == s || slots'[i] in slots {
      if i != p {
        assert slots'[i] == slots[if i < p then i else i - 1];
      }
    }
  }

  lemma AddCovered<K(!new)>(slots: seq<Slot<K>>, keys: map<K, nat>, s: Slot<K>, p: nat)
    requires Covered(slots, keys) && p <= |slots|
    ensures Covered(InsertAt(slots, p, s), keys[s.item.key := s.id])
  {
    var slots', keys' := InsertAt(slots, p, s), keys[s.item.key := s.id];
    forall l | l in keys' ensures exists i :: 0 <= i < |slots'| && slots'[i].item.key == l {
      if l == s.item.key {
        assert slots'[p].item.key == l;
      } else {
        var i :| 0 <= i < |slots| && slots[i].item.key == l;
        assert slots'[if i < p then i else i + 1].item.key == l;
      }
    }
  }

  /** Adding a key the strategy does not know. */
  lemma AddAgrees<K(!new)>(slots: seq<Slot<K>>, keys: map<K, nat>, nextId: nat, stamps: map<K, int>, k: K, now: int)
    requires Agree(slots, keys, nextId, stamps) && k !in keys
    ensures Agree(InsertSlot(slots, NewSlot(nextId, now, k)), keys[k := nextId], nextId + 1, stamps[k := now])
  {
    var s, p := NewSlot(nextId, now, k), UpperBound(slots, now);
    InsertOrdered(slots, nextId, s);
    AddListed(slots, keys, stamps, s, p);
    AddCovered(slots, keys, s, p);
  }

  lemma EraseListed<K>(slots: seq<Slot<K>>, keys: map<K, nat>, nextId: nat, stamps: map<K, int>, p: nat)
    requires Ordered(slots, nextId) && Listed(slots, keys, stamps) && p < |slots|
    ensures Listed(EraseAt(slots, p), keys - {slots[p].item.key}, stamps - {slots[p].item.key})
  {
    var slots', k := EraseAt(slots, p), slots[p].item.key;
    forall i | 0 <= i < |slots'| ensures slots'[i] in slots && slots'[i].item.key != k {
      var i0 := if i < p then i else i + 1;
      assert slots'[i] == slots[i0] && slots[i0].id != slots[p].id;
    }
  }

  lemma EraseCovered<K(!new)>(slots: seq<Slot<K>>, keys: map<K, nat>, p: nat)
    requires Covered(slots, keys) && p < |slots|
    ensures Covered(EraseAt(slots, p), keys - {slots[p].item.key})
  {
    var slots', k := EraseAt(slots, p), slots[p].item.key;
    forall l | l in keys && l != k ensures exists i :: 0 <= i < |slots'| && slots'[i].item.key == l {
      var i :| 0 <= i < |slots| && slots[i].item.key == l;
      assert slots'[if i < p then i else i - 1].item.key == l;
    }
  }

  /** Erasing the element at position p and its key. */
  lemma EraseAgrees<K(!new)>(slots: seq<Slot<K>>, keys: map<K, nat>, nextId: nat, stamps: map<K, int>, p: nat)
    requires Agree(slots, keys, nextId, stamps) && p < |slots|
    ensures Agree(EraseAt(slots, p), keys - {slots[p].item.key}, nextId, stamps - {slots[p].item.key})
  {
    EraseOrdered(slots, nextId, p);
    EraseListed(slots, keys, nextId, stamps, p);
    EraseCovered(slots, keys, p);
  }

  /** Erasing a known key through its iterator. */
  lemma EraseKeyAgrees<K(!new)>(slots: seq<Slot<K>>, keys: map<K, nat>, nextId: nat, stamps: map<K, int>, k: K)
    requires Agree(slots, keys, nextId, stamps) && k in keys
    ensures PositionOf(slots, keys[k]) < |slots|
    ensures Agree(EraseAt(slots, PositionOf(slots, keys[k])), keys - {k}, nextId, stamps - {k})
  {
    IndexLeadsToKey(slots, keys, nextId, stamps, k);
    EraseAgrees(slots, keys, nextId, stamps, PositionOf(slots, keys[k]));
  }

  /** Erasing a known key through its iterator and giving it a new stamp. */
  lemma RestampAgrees<K(!new)>(slots: seq<Slot<K>>, keys: map<K, nat>, nextId: nat, stamps: map<K, int>, k: K, now: int)
    requires Agree(slots, keys, nextId, stamps) && k in keys
    ensures PositionOf(slots, keys[k]) < |slots|
    ensures var rest := EraseAt(slots, PositionOf(slots, keys[k]));
            Agree(InsertSlot(rest, NewSlot(nextId, now, k)), keys[k := nextId], nextId + 1, stamps[k := now])
  {
    EraseKeyAgrees(slots, keys, nextId, stamps, k);
    AddAgrees(EraseAt(slots, PositionOf(slots, keys[k])), keys - {k}, nextId, stamps - {k}, k, now);
    DropAssign(keys, k, nextId);
    DropAssign(stamps, k, now);
  }

  /** Inserting a new element first and erasing the old one of the same key through its iterator
      afterwards gives the same index as erasing first. */
  lemma {:induction false} InsertThenErase<K(!new)>(slots: seq<Slot<K>>, nextId: nat, s: Slot<K>, p: nat)
    requires Ordered(slots, nextId) && s.id == nextId && p < |slots|
    ensures var both := InsertSlot(slots, s);
            var q := PositionOf(both, slots[p].id);
            q < |both| && EraseAt(both, q) == InsertSlot(EraseAt(slots, p), s)
  {
    var u, both, rest := UpperBound(slots, s.item.time), InsertSlot(slots, s), EraseAt(slots, p);
    InsertOrdered(slots, nextId, s);
    PositionIs(both, nextId + 1, if p < u then p else p + 1);
    UpperBoundIs(rest, s.item.time, if p < u then u - 1 else u);
    InsertThenEraseAt(slots, u, s, p);
  }

  lemma {:induction false} UpperBoundIs<K>(slots: seq<Slot<K>>, time: int, v: nat)
    requires v <= |slots|
    requires forall i :: 0 <= i < v ==> slots[i].item.time <= time
    requires forall i :: v <= i < |slots| ==> time < slots[i].item.time
    ensures UpperBound(slots, time) == v
  {
    if v != 0 {
      UpperBoundIs(slots[1..], time, v - 1);
    }
  }

  /** A prefix of the index that ends before an element which has not expired at some time holds all
      keys that have. */
  lemma {:induction false} ExpiredInPrefix<K(!new)>(slots: seq<Slot<K>>, keys: map<K, nat>, nextId: nat, stamps: map<K, int>,
                                                    n: nat, now: int, expireTime: int)
    requires Agree(slots, keys, nextId, stamps) && n <= |slots|
    requires n < |slots| ==> !IsElapsed(slots[n].item.time, now, expireTime)
    ensures Expired(stamps, now, expireTime) <= set i | 0 <= i < n :: slots[i].item.key
  {
    forall k | k in stamps && IsElapsed(stamps[k], now, expireTime)
      ensures k in set i | 0 <= i < n :: slots[i].item.key
    {
      assert k in keys;
      var q :| 0 <= q < |slots| && slots[q].item.key == k;
      assert slots[q].item.time == stamps[k] && q < n;
    }
  }

  /** The keys of a prefix whose elements have all expired have expired. */
  lemma {:induction false} PrefixExpired<K(!new)>(slots: seq<Slot<K>>, keys: map<K, nat>, nextId: nat, stamps: map<K, int>,
                                                  n: nat, now: int, expireTime: int)
    requires Agree(slots, keys, nextId, stamps) && n <= |slots|
    requires forall i :: 0 <= i < n ==> IsElapsed(slots[i].item.time, now, expireTime)
    ensures (set i | 0 <= i < n :: slots[i].item.key) <= Expired(stamps, now, expireTime)
  {
  }

  ghost function Expired<K>(stamps: map<K, int>, now: int, expireTime: int): set<K> {
    set k | k in stamps && now - stamps[k] >= expireTime
  }

  class ExpireStrategy<K(==, !new)> {
    const expireTime: int
    /** True for an AccessExpireStrategy, whose onGet overrides the empty one of ExpireStrategy. */
    const renewsOnGet: bool
    var keys: map<K, nat>
    var keyIndex: seq<Slot<K>>
    var nextId: nat
    /** When each key was last stamped. */
    ghost var stamps: map<K, int>

    ghost predicate Valid()
      reads this
    {
      0 < expireTime && Agree(keyIndex, keys, nextId, stamps)
    }

    constructor (expireTime: int, renewsOnGet: bool)
      requires 0 < expireTime
      ensures Valid() && this.expireTime == expireTime && this.renewsOnGet == renewsOnGet && stamps == map[]
    {
      this.expireTime, this.renewsOnGet := expireTime, renewsOnGet;
      keys, keyIndex, nextId, stamps := map[], [], 0, map[];
    }

    /** Constructing from a time in milliseconds; less than 25 of them is refused. */
    static method Create(expireTimeInMilliSec: int, renewsOnGet: bool) returns (r: Creation<ExpireStrategy<K>>)
      ensures r.Constructed? <==> 25 <= expireTimeInMilliSec
      ensures r.Constructed? ==>
                && fresh(r.value) && r.value.Valid() && r.value.stamps == map[]
                && r.value.expireTime == expireTimeInMilliSec * 1000 && r.value.renewsOnGet == renewsOnGet
    {
      if expireTimeInMilliSec * 1000 < 25000 {
        return InvalidArgument;
      }
      var strategy := new ExpireStrategy(expireTimeInMilliSec * 1000, renewsOnGet);
      r := Constructed(strategy);
    }

    /** multimap::insert */
    method Insert(s: Slot<K>)
      modifies `keyIndex
      ensures keyIndex == InsertSlot(old(keyIndex), s)
    {
      keyIndex := InsertSlot(keyIndex, s);
    }

    /** multimap::erase through an iterator */
    method Erase(id: nat)
      requires PositionOf(keyIndex, id) < |keyIndex|
      modifies `keyIndex
      ensures keyIndex == EraseAt(old(keyIndex), PositionOf(old(keyIndex), id))
    {
      keyIndex := EraseAt(keyIndex, PositionOf(keyIndex, id));
    }

    /** Stores the iterator to the element inserted last, which was stamped now. */
    method PointToLatest(key: K, now: int)
      modifies `keys, `nextId, `stamps
      ensures keys == old(keys)[key := old(nextId)] && nextId == old(nextId) + 1
      ensures stamps == old(stamps)[key := now]
    {
      keys := keys[key := nextId];
      nextId := nextId + 1;
      stamps := stamps[key := now];
    }

    method OnAdd(key: K, now: int)
      requires Valid()
      modifies this
      ensures Valid() && stamps == old(stamps)[key := now]
    {
      if key in keys {
        RestampAgrees(keyIndex, keys, nextId, stamps, key, now);
        InsertThenErase(keyIndex, nextId, NewSlot(nextId, now, key), PositionOf(keyIndex, keys[key]));
      } else {
        AddAgrees(keyIndex, keys, nextId, stamps, key, now);
      }
      Insert(NewSlot(nextId, now, key));
      if key in keys {
        Erase(keys[key]);
      }
      PointToLatest(key, now);
    }

    method OnRemove(key: K)
      requires Valid()
      modifies this
      ensures Valid() && stamps == old(stamps) - {key}
    {
      if key !in keys {
        DropAbsent(stamps, key);
        return;
      }
      IndexLeadsToKey(keyIndex, keys, nextId, stamps, key);
      Erase(keys[key]);
      keys := keys - {key};
      stamps := stamps - {key};
      EraseKeyAgrees(old(keyIndex), old(keys), nextId, old(stamps), key);
    }

    method OnUpdate(key: K, now: int)
      requires Valid()
      modifies this
      ensures Valid() && stamps == old(stamps)[key := now]
    {
      DropAssign(stamps, key, now);
      OnRemove(key);
      OnAdd(key, now);
    }

    method OnGet(key: K, now: int)
      requires Valid()
      modifies this
      ensures Valid()
      ensures stamps == if renewsOnGet && key in old(stamps) then old(stamps)[key := now] else old(stamps)
    {
      if !renewsOnGet || key !in keys {
        return;
      }
      IndexLeadsToKey(keyIndex, keys, nextId, stamps, key);
      Erase(keys[key]);
      Insert(NewSlot(nextId, now, key));
      PointToLatest(key, now);
      RestampAgrees(old(keyIndex), old(keys), old(nextId), old(stamps), key, now);
    }

    method OnClear()
      requires Valid()
      modifies this
      ensures Valid() && stamps == map[]
    {
      keys, keyIndex, stamps := map[], [], map[];
    }

    method OnIsValid(key: K, now: int) returns (valid: bool)
      requires Valid()
      ensures valid <==> key in stamps && now - stamps[key] < expireTime
    {
      valid := true;
      if key in keys {
        IndexLeadsToKey(keyIndex, keys, nextId, stamps, key);
        if IsElapsed(keyIndex[PositionOf(keyIndex, keys[key])].item.time, now, expireTime) {
          valid := false;
        }
      } else {
        valid := false;
      }
    }

    /** Adds the keys of the leading elements that have expired. The clock is read for every element
        anew; clock(i) is what it shows for element i. What is added are all keys that have expired at
        the first reading, and no key that has not expired at the last. */
    method OnReplace(elems: set<K>, clock: nat -> int) returns (elems': set<K>)
      requires Valid() && forall i: nat, j: nat :: i <= j ==> clock(i) <= clock(j)
      ensures elems + Expired(stamps, clock(0), expireTime) <= elems'
      ensures elems' <= elems + Expired(stamps, clock(|keyIndex|), expireTime)
    {
      elems' := elems;
      var it := 0;
      while it != |keyIndex| && IsElapsed(keyIndex[it].item.time, clock(it), expireTime)
        invariant it <= |keyIndex|
        invariant forall i :: 0 <= i < it ==> IsElapsed(keyIndex[i].item.time, clock(|keyIndex|), expireTime)
        invariant elems' == elems + set i | 0 <= i < it :: keyIndex[i].item.key
        decreases |keyIndex| - it
      {
        elems' := elems' + {keyIndex[it].item.key};
        it := it + 1;
      }
      ExpiredInPrefix(keyIndex, keys, nextId, stamps, it, clock(0), expireTime);
      PrefixExpired(keyIndex, keys, nextId, stamps, it, clock(|keyIndex|), expireTime);
    }
  }
}
