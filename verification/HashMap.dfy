/** Poco/HashMap.h: a map kept in a LinearHashTable whose entries are compared by key only. */
module HashMaps {
  import opened LinearHashing
  import opened LinearHashTables

  datatype Entry<K, M> = Entry(first: K, second: M)

  datatype Lookup<M> = Found(value: M) | NotFoundException

  ghost function Entries<K, M>(m: map<K, M>): map<K, Entry<K, M>> {
    map k | k in m :: Entry(k, m[k])
  }

  class HashMap<K(==, !new), M(!new)> {
    /** What Mapped() constructs. */
    const defaultValue: M
    const table: LinearHashTable<Entry<K, M>, K>
    ghost var mapping: map<K, M>

    ghost predicate Valid()
      reads this, table
    {
      && table.Valid()
      && (forall e :: table.hashing.key(e) == e.first)
      && table.contents == Entries(mapping)
    }

    constructor (hash: K -> nat, defaultValue: M)
      ensures Valid() && fresh(table) && mapping == map[] && this.defaultValue == defaultValue
    {
      this.defaultValue := defaultValue;
      table := new LinearHashTable(Hashing((e: Entry<K, M>) => e.first, hash));
      mapping := map[];
    }

    /** The entry a key-only lookup compares against: HashMapEntry(key) with a default value. */
    function Probe(key: K): Entry<K, M> {
      Entry(key, defaultValue)
    }

    method Find(key: K) returns (p: Position)
      requires Valid()
      ensures IsPosition(table.buckets, p)
      ensures p.bucket < |table.buckets| <==> key in mapping
      ensures key in mapping ==> table.buckets[p.bucket][p.index] == Entry(key, mapping[key])
    {
      p := table.Find(Probe(key));
    }

    method Count(key: K) returns (n: nat)
      requires Valid()
      ensures n == if key in mapping then 1 else 0
    {
      var p := table.Find(Probe(key));
      var end := table.End();
      n := if !SamePosition(table.buckets, p, end) then 1 else 0;
    }

    method InsertPair(key: K, value: M) returns (p: Position, inserted: bool)
      requires Valid()
      modifies this, table
      ensures Valid() && (inserted <==> key !in old(mapping))
      ensures mapping == if inserted then old(mapping)[key := value] else old(mapping)
      ensures Dereferenceable(table.buckets, p)
      ensures table.buckets[p.bucket][p.index] == Entry(key, mapping[key])
    {
      EntriesWith(mapping, key, value);
      p, inserted := table.InsertValue(Entry(key, value));
      if inserted {
        mapping := mapping[key := value];
      }
    }

    method Erase(key: K)
      requires Valid()
      modifies this, table
      ensures Valid() && mapping == old(mapping) - {key}
    {
      EntriesWithout(mapping, key);
      var p := Find(key);
      table.ErasePosition(p);
      mapping := mapping - {key};
    }

    method Clear()
      requires Valid()
      modifies this, table
      ensures Valid() && mapping == map[]
    {
      table.Clear();
      mapping := map[];
    }

    method Size() returns (n: nat)
      requires Valid()
      ensures n == |mapping|
    {
      n := table.Size();
      EntriesSize(mapping);
    }

    /** The const operator []. */
    method At(key: K) returns (r: Lookup<M>)
      requires Valid()
      ensures r == if key in mapping then Found(mapping[key]) else NotFoundException
    {
      var p := table.Find(Probe(key));
      var end := table.End();
      if !SamePosition(table.buckets, p, end) {
        r := Found(table.buckets[p.bucket][p.index].second);
      } else {
        r := NotFoundException;
      }
    }

    /** The mutable operator []; p stands for the returned reference. */
    method Index(key: K) returns (p: Position)
      requires Valid()
      modifies this, table
      ensures Valid()
      ensures mapping == if key in old(mapping) then old(mapping) else old(mapping)[key := defaultValue]
      ensures Dereferenceable(table.buckets, p)
      ensures table.buckets[p.bucket][p.index] == Entry(key, mapping[key])
    {
      EntriesWith(mapping, key, defaultValue);
      var inserted;
      p, inserted := table.InsertValue(Probe(key));
      if inserted {
        mapping := mapping[key := defaultValue];
      }
    }

    /** Writing through the reference that operator [] returned. */
    method Store(p: Position, value: M)
      requires Valid() && Dereferenceable(table.buckets, p)
      modifies this, table
      ensures Valid() && mapping == old(mapping)[old(table.buckets)[p.bucket][p.index].first := value]
      ensures old(table.buckets)[p.bucket][p.index].first in old(mapping)
    {
      var key := table.buckets[p.bucket][p.index].first;
      table.Assign(p, Entry(key, value));
      mapping := mapping[key := value];
    }
  }

  lemma EntriesWith<K, M>(m: map<K, M>, key: K, value: M)
    ensures Entries(m[key := value]) == Entries(m)[key := Entry(key, value)]
  {
  }

  lemma EntriesWithout<K, M>(m: map<K, M>, key: K)
    ensures Entries(m - {key}) == Entries(m) - {key}
    ensures key !in m ==> Entries(m) - {key} == Entries(m)
  {
  }

  lemma {:induction false} EntriesSize<K, M>(m: map<K, M>)
    ensures |Entries(m)| == |m|
  {
    assert Entries(m).Keys == m.Keys;
  }
}
