/** The mutable table of Poco/LinearHashTable.h, proved to compute the functions of LinearHashing. */
module LinearHashTables {
  import opened LinearHashing
  import opened Sequences

  class LinearHashTable<V, K(==, !new)> {
    const hashing: Hashing<V, K>
    var buckets: seq<seq<V>>
    var split: nat
    var front: nat
    var size: nat
    /** The stored values by key. */
    ghost var contents: map<K, V>

    function View(): Table<V>
      reads this
    {
      Table(buckets, split, front, size)
    }

    ghost predicate Valid()
      reads this
    {
      Represents(hashing, View(), contents)
    }

    constructor (hashing: Hashing<V, K>)
      ensures Valid() && this.hashing == hashing && contents == map[] && View() == EmptyTable()
    {
      this.hashing := hashing;
      buckets, split, front, size := [[]], 0, 1, 0;
      contents := map[];
    }

    function BucketAddress(v: V): (a: nat)
      requires View().Shaped()
      reads this
      ensures a < |buckets|
    {
      Address(hashing.Of(v), split, front)
    }

    /** The loop that ends both split and merge: hands out the values of a detached bucket. */
    method Rehash(moving: seq<V>)
      requires View().Shaped()
      modifies `buckets
      ensures Rehashed(hashing, old(buckets), buckets, moving, split, front)
    {
      for i := 0 to |moving|
        invariant View().Shaped()
        invariant Rehashed(hashing, old(buckets), buckets, moving[..i], split, front)
      {
        var addr := BucketAddress(moving[i]);
        buckets := buckets[addr := buckets[addr] + [moving[i]]];
        forall b | 0 <= b < |buckets|
          ensures buckets[b] == old(buckets)[b] + Keep(hashing, moving[..i + 1], split, front, b)
        {
          KeepNext(hashing, moving, i, split, front, b);
        }
      }
      assert moving[..|moving|] == moving;
    }

    /** The first lines of split and of merge. */
    method EnterNextRound()
      requires View().Shaped()
      modifies `split, `front
      ensures View() == NextRound(old(View()))
    {
      if split == front {
        split := 0;
        front := front * 2;
      }
    }

    method EnterPreviousRound()
      requires View().Shaped() && 1 < |buckets|
      modifies `split, `front
      ensures View() == PreviousRound(old(View()))
    {
      if split == 0 {
        front := front / 2;
        split := front;
      }
    }

    method SplitOnce()
      requires Placed(hashing, View(), contents)
      modifies `buckets, `split, `front
      ensures View() == Split(hashing, old(View()))
    {
      RoundsPlaced(hashing, View(), contents);
      EnterNextRound();
      ghost var t := View();
      buckets := buckets + [[]];
      var moving := buckets[split];
      buckets := buckets[split := []];
      split := split + 1;
      Rehash(moving);
      SplitBucketRehashes(hashing, t, contents, buckets);
    }

    method MergeOnce()
      requires Placed(hashing, View(), contents) && 1 < |buckets|
      modifies `buckets, `split, `front
      ensures View() == Merge(old(View()))
    {
      RoundsPlaced(hashing, View(), contents);
      EnterPreviousRound();
      ghost var t := View();
      split := split - 1;
      var moving := buckets[|buckets| - 1];
      buckets := buckets[..|buckets| - 1];
      Rehash(moving);
      MergeBucketRehashes(hashing, t, contents, buckets);
    }

    method End() returns (p: Position)
      requires Valid()
      ensures p.bucket == |buckets|
    {
      p := Position(|buckets|, |buckets[0]|);
    }

    method Find(v: V) returns (p: Position)
      requires Valid()
      ensures IsPosition(buckets, p)
      ensures p.bucket < |buckets| <==> hashing.key(v) in contents
      ensures hashing.key(v) in contents ==> buckets[p.bucket][p.index] == contents[hashing.key(v)]
      ensures hashing.key(v) in contents ==>
                p == Position(BucketAddress(v), IndexOfKey(hashing, buckets[BucketAddress(v)], hashing.key(v)))
    {
      HasIsMembership(hashing, View(), contents, hashing.key(v));
      var addr := BucketAddress(v);
      var i := IndexOfKey(hashing, buckets[addr], hashing.key(v));
      if i != |buckets[addr]| {
        p := Position(addr, i);
      } else {
        p := End();
      }
    }

    method Count(v: V) returns (n: nat)
      requires Valid()
      ensures n == if hashing.key(v) in contents then 1 else 0
    {
      var p := Find(v);
      var end := End();
      n := if !SamePosition(buckets, p, end) then 1 else 0;
    }

    method InsertValue(v: V) returns (p: Position, inserted: bool)
      requires Valid()
      modifies this
      ensures Valid() && View() == Insert(hashing, old(View()), v)
      ensures inserted <==> hashing.key(v) !in old(contents)
      ensures contents == if inserted then old(contents)[hashing.key(v) := v] else old(contents)
      ensures Dereferenceable(buckets, p)
      ensures buckets[p.bucket][p.index] == contents[hashing.key(v)]
    {
      HasIsMembership(hashing, View(), contents, hashing.key(v));
      InsertRepresents(hashing, View(), contents, v);
      var hash := hashing.Of(v);
      var addr := Address(hash, split, front);
      var i := IndexOfKey(hashing, buckets[addr], hashing.key(v));
      if i == |buckets[addr]| {
        SplitOnce();
        addr := Address(hash, split, front);
        p := Position(addr, |buckets[addr]|);
        buckets := buckets[addr := buckets[addr] + [v]];
        size := size + 1;
        contents := contents[hashing.key(v) := v];
        inserted := true;
      } else {
        p, inserted := Position(addr, i), false;
      }
    }

    /** Assignment through a dereferenced iterator; the key must stay as it is. */
    method Assign(p: Position, v: V)
      requires Valid() && Dereferenceable(buckets, p)
      requires hashing.key(buckets[p.bucket][p.index]) == hashing.key(v)
      modifies this
      ensures Valid() && contents == old(contents)[hashing.key(v) := v]
      ensures hashing.key(v) in old(contents)
    {
      AssignRepresents(hashing, View(), contents, p.bucket, p.index, v);
      buckets := buckets[p.bucket := buckets[p.bucket][p.index := v]];
      contents := contents[hashing.key(v) := v];
    }

    method ErasePosition(p: Position)
      requires Valid() && IsPosition(buckets, p)
      modifies this
      ensures Valid()
      ensures p.bucket == |old(buckets)| ==> View() == old(View()) && contents == old(contents)
      ensures Dereferenceable(old(buckets), p) ==>
                && contents == old(contents) - {hashing.key(old(buckets)[p.bucket][p.index])}
                && 0 < old(size) && 1 < |old(buckets)|
                && View() == EraseFrom(old(View()), p.bucket, p.index)
    {
      var end := End();
      if !SamePosition(buckets, p, end) {
        EraseFromRepresents(hashing, View(), contents, p.bucket, p.index);
        RemovePlaced(hashing, View(), contents, p.bucket, p.index);
        contents := contents - {hashing.key(buckets[p.bucket][p.index])};
        buckets := buckets[p.bucket := EraseAt(buckets[p.bucket], p.index)];
        size := size - 1;
        MergeOnce();
      }
    }

    method EraseValue(v: V)
      requires Valid()
      modifies this
      ensures Valid() && contents == old(contents) - {hashing.key(v)}
      ensures hashing.key(v) !in old(contents) ==> View() == old(View())
      ensures hashing.key(v) in old(contents) ==> old(Has(hashing, View(), hashing.key(v))) && 0 < old(size)
      ensures View() == Erase(hashing, old(View()), hashing.key(v))
    {
      HasIsMembership(hashing, View(), contents, hashing.key(v));
      var p := Find(v);
      ErasePosition(p);
    }

    method Clear()
      requires Valid()
      modifies this
      ensures Valid() && contents == map[] && View() == EmptyTable()
    {
      buckets, split, front, size := [[]], 0, 1, 0;
      contents := map[];
    }

    method Size() returns (n: nat)
      requires Valid()
      ensures n == |contents|
    {
      n := size;
    }

    method Begin() returns (p: Position)
      requires Valid()
      ensures IsPosition(buckets, p) && SamePosition(buckets, p, Settle(buckets, 0, 0))
    {
      var b := 0;
      while b != |buckets| && buckets[b] == []
        invariant b <= |buckets|
        invariant Settle(buckets, b, 0) == Settle(buckets, 0, 0)
      {
        b := b + 1;
      }
      if b == |buckets| {
        p := End();
      } else {
        p := Position(b, 0);
      }
    }

    /** The iterator's ++. */
    method Next(p: Position) returns (q: Position)
      requires Valid() && IsPosition(buckets, p)
      ensures IsPosition(buckets, q)
      ensures p.bucket == |buckets| ==> q == p
      ensures p.bucket < |buckets| ==> SamePosition(buckets, q, Settle(buckets, p.bucket, p.index + 1))
    {
      q := p;
      if q.bucket != |buckets| {
        var b: nat, i: nat := p.bucket, p.index + 1;
        while b != |buckets| && i == |buckets[b]|
          invariant p.bucket <= b <= |buckets| && (b < |buckets| ==> i <= |buckets[b]|)
          invariant SamePosition(buckets, Settle(buckets, b, i), Settle(buckets, p.bucket, p.index + 1))
          decreases |buckets| - b
        {
          assert Settle(buckets, b, i) == Settle(buckets, b + 1, 0);
          b := b + 1;
          if b != |buckets| {
            i := 0;
          }
        }
        q := Position(b, i);
      }
    }
  }
}
