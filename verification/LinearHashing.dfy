/** The mathematics of the linear hash table (Poco/LinearHashTable.h): how a hash value is
    turned into a bucket number, what one split and one merge do to the buckets, and what a
    whole run of operations leaves behind. The class in LinearHashTable.dfy is proved to
    compute the functions defined here. */
module LinearHashing {
  import opened Sequences

  // ---------------------------------------------------------------- addresses

  /** The bucket number the table computes for a hash value. */
  function Address(hash: nat, split: nat, front: nat): (a: nat)
    requires 0 < front
    ensures split <= front ==> a < front + split
  {
    if hash % front >= split then hash % front else (ModDouble(hash, front); hash % (2 * front))
  }

  ghost predicate IsPowerOfTwo(n: nat) {
    n == 1 || (1 < n && n % 2 == 0 && IsPowerOfTwo(n / 2))
  }

  /** The reachable pairs of split pointer and front size for a given number of buckets. */
  ghost predicate Geometry(split: nat, front: nat, count: nat) {
    IsPowerOfTwo(front) && split <= front && count == front + split
  }

  lemma {:induction false} ModDouble(hash: nat, front: nat)
    requires 0 < front
    ensures hash % (2 * front) == hash % front || hash % (2 * front) == hash % front + front
  {
    if hash < front {
      SmallMod(hash, front);
      SmallMod(hash, 2 * front);
    } else if hash < 2 * front {
      ModMinus(hash, front);
      SmallMod(hash - front, front);
      SmallMod(hash, 2 * front);
    } else {
      ModDouble(hash - 2 * front, front);
      ModMinus(hash, 2 * front);
      ModMinus(hash, front);
      ModMinus(hash - front, front);
    }
  }

  lemma SmallMod(n: nat, d: nat)
    requires n < d
    ensures n % d == n
  {
  }

  lemma ModMinus(n: nat, d: nat)
    requires 0 < d <= n
    ensures n % d == (n - d) % d
  {
    var q, r := (n - d) / d, (n - d) % d;
    assert d * (q + 1) == d * q + d;
    ModUnique(n, d, q + 1, r);
  }

  lemma ModUnique(n: nat, d: nat, q: nat, r: nat)
    requires 0 < d && r < d && n == d * q + r
    ensures n % d == r
  {
    var q', r' := n / d, n % d;
    assert n == d * q' + r';
    if q < q' {
      MulMonotone(d, q + 1, q');
    } else if q' < q {
      MulMonotone(d, q' + 1, q);
    }
  }

  lemma MulMonotone(d: nat, a: nat, b: nat)
    requires a <= b
    ensures d * a <= d * b
  {
  }

  /** The two representations of a full round address every hash alike. */
  lemma FullRoundAddresses(hash: nat, front: nat)
    requires 0 < front
    ensures Address(hash, front, front) == Address(hash, 0, 2 * front)
  {
  }

  lemma PowersOfTwoApart(a: nat, b: nat)
    requires IsPowerOfTwo(a) && IsPowerOfTwo(b) && a < b
    ensures 2 * a <= b
  {
    if a != 1 {
      PowersOfTwoApart(a / 2, b / 2);
    }
  }

  /** The address is a function of the hash and the number of buckets alone. */
  lemma AddressByCount(hash: nat, split: nat, front: nat, split': nat, front': nat, count: nat)
    requires Geometry(split, front, count) && Geometry(split', front', count)
    ensures Address(hash, split, front) == Address(hash, split', front')
  {
    if front < front' {
      PowersOfTwoApart(front, front');
      FullRoundAddresses(hash, front);
    } else if front' < front {
      PowersOfTwoApart(front', front);
      FullRoundAddresses(hash, front');
    }
  }

  /** Litwin's rule, stated without split pointer or front: of all the low-order bits of the
      hash, hash % 2^j, the address is the largest that names an existing bucket. */
  lemma {:induction false} AddressIsLargestTruncation(hash: nat, split: nat, front: nat, count: nat, p: nat)
    requires Geometry(split, front, count) && IsPowerOfTwo(p)
    ensures Address(hash, split, front) == hash % front || Address(hash, split, front) == hash % (2 * front)
    ensures hash % p < count ==> hash % p <= Address(hash, split, front)
  {
    ModDouble(hash, front);
    if hash % p < count {
      if p <= front {
        TruncationGrows(hash, p, front);
      } else {
        PowersOfTwoApart(front, p);
        TruncationStops(hash, 2 * front, p);
      }
    }
  }

  lemma TruncationGrows(hash: nat, p: nat, q: nat)
    requires IsPowerOfTwo(p) && IsPowerOfTwo(q) && p <= q
    ensures hash % p <= hash % q
  {
    if p < q {
      PowersOfTwoApart(p, q);
      TruncationGrows(hash, p, q / 2);
      ModDouble(hash, q / 2);
    }
  }

  lemma TruncationStops(hash: nat, p: nat, q: nat)
    requires IsPowerOfTwo(p) && IsPowerOfTwo(q) && p <= q && hash % q < p
    ensures hash % p == hash % q
  {
    if p < q {
      PowersOfTwoApart(p, q);
      ModDouble(hash, q / 2);
      TruncationStops(hash, p, q / 2);
    }
  }

  /** Moving the split pointer re-addresses the residents of one bucket only. */
  lemma SplitReaddresses(hash: nat, split: nat, front: nat)
    requires split < front
    ensures Address(hash, split, front) != split ==>
              Address(hash, split + 1, front) == Address(hash, split, front)
    ensures Address(hash, split, front) == split ==>
              Address(hash, split + 1, front) in {split, front + split}
    ensures Address(hash, split + 1, front) == front + split ==> Address(hash, split, front) == split
  {
    ModDouble(hash, front);
  }

  // ---------------------------------------------------------------- buckets

  /** How values are compared and hashed. Equality of two values means equality of their keys
      (for a HashMapEntry that is its first field; for a plain set it is the value itself), and
      the hash is a function of the key, so equal values have equal hashes. */
  datatype Hashing<!V, !K> = Hashing(key: V -> K, hash: K -> nat) {
    function Of(v: V): nat {
      hash(key(v))
    }
  }

  datatype Table<V> = Table(buckets: seq<seq<V>>, split: nat, front: nat, size: nat) {
    ghost predicate Shaped() {
      Geometry(split, front, |buckets|)
    }

    function Home(hash: nat): (a: nat)
      requires 0 < front && split <= front
      ensures a < front + split
    {
      Address(hash, split, front)
    }
  }

  function EmptyTable<V>(): (t: Table<V>)
    ensures t.Shaped()
  {
    Table([[]], 0, 1, 0)
  }

  /** The position of the first value in the bucket that has the given key, or its length. */
  function IndexOfKey<V, K(==)>(h: Hashing<V, K>, xs: seq<V>, k: K): (i: nat)
    ensures i <= |xs|
    ensures i < |xs| ==> h.key(xs[i]) == k
    ensures forall j :: 0 <= j < i ==> h.key(xs[j]) != k
  {
    if xs == [] || h.key(xs[0]) == k then 0 else 1 + IndexOfKey(h, xs[1..], k)
  }

  /** The values of a bucket that the given geometry sends to bucket b, in their old order. */
  function Keep<V, K>(h: Hashing<V, K>, xs: seq<V>, split: nat, front: nat, b: nat): seq<V>
    requires 0 < front
  {
    if xs == [] then [] else
    var last := xs[|xs| - 1];
    var kept := Keep(h, xs[..|xs| - 1], split, front, b);
    if Address(h.Of(last), split, front) == b then kept + [last] else kept
  }

  lemma KeepNext<V, K>(h: Hashing<V, K>, xs: seq<V>, i: nat, split: nat, front: nat, b: nat)
    requires 0 < front && i < |xs|
    ensures Keep(h, xs[..i + 1], split, front, b) ==
            Keep(h, xs[..i], split, front, b) + if Address(h.Of(xs[i]), split, front) == b then [xs[i]] else []
  {
    assert xs[..i + 1][..i] == xs[..i];
  }

  // ---------------------------------------------------------------- operations

  /** A full round (split = front) written as the start of the next one. */
  function NextRound<V>(t: Table<V>): (r: Table<V>)
    requires t.Shaped()
    ensures r.Shaped() && r.split < r.front
  {
    if t.split == t.front then t.(split := 0, front := 2 * t.front) else t
  }

  /** The start of a round (split = 0) written as the end of the one before. */
  function PreviousRound<V>(t: Table<V>): (r: Table<V>)
    requires t.Shaped() && 1 < |t.buckets|
    ensures r.Shaped() && 0 < r.split
  {
    if t.split == 0 then t.(split := t.front / 2, front := t.front / 2) else t
  }

  /** Divides the residents of bucket `split` between it and a new last bucket, touching no other. */
  function SplitBucket<V, K>(h: Hashing<V, K>, t: Table<V>): (r: Table<V>)
    requires t.Shaped() && t.split < t.front
    ensures r.Shaped() && |r.buckets| == |t.buckets| + 1 && r.size == t.size
  {
    var s, f, residents := t.split, t.front, t.buckets[t.split];
    t.(buckets := t.buckets[s := Keep(h, residents, s + 1, f, s)] + [Keep(h, residents, s + 1, f, f + s)],
       split := s + 1)
  }

  /** Drops the last bucket, whose residents join the bucket they once split from. */
  function MergeBucket<V>(t: Table<V>): (r: Table<V>)
    requires t.Shaped() && 0 < t.split
    ensures r.Shaped() && |r.buckets| == |t.buckets| - 1 && r.size == t.size
  {
    var s, n := t.split - 1, |t.buckets| - 1;
    t.(buckets := t.buckets[..n][s := t.buckets[s] + t.buckets[n]], split := s)
  }

  function Split<V, K>(h: Hashing<V, K>, t: Table<V>): (r: Table<V>)
    requires t.Shaped()
    ensures r.Shaped() && |r.buckets| == |t.buckets| + 1 && r.size == t.size
  {
    SplitBucket(h, NextRound(t))
  }

  function Merge<V>(t: Table<V>): (r: Table<V>)
    requires t.Shaped() && 1 < |t.buckets|
    ensures r.Shaped() && |r.buckets| == |t.buckets| - 1 && r.size == t.size
  {
    MergeBucket(PreviousRound(t))
  }

  predicate Has<V, K(==)>(h: Hashing<V, K>, t: Table<V>, k: K)
    requires 0 < t.front && t.split <= t.front && |t.buckets| == t.front + t.split
  {
    var xs := t.buckets[t.Home(h.hash(k))];
    IndexOfKey(h, xs, k) < |xs|
  }

  function Insert<V, K(==)>(h: Hashing<V, K>, t: Table<V>, v: V): (r: Table<V>)
    requires t.Shaped()
    ensures r.Shaped()
  {
    if Has(h, t, h.key(v)) then t else
    var g := Split(h, t);
    var a := g.Home(h.Of(v));
    g.(buckets := g.buckets[a := g.buckets[a] + [v]], size := g.size + 1)
  }

  /** The table after the value at position i of bucket b is erased. */
  function EraseFrom<V>(t: Table<V>, b: nat, i: nat): (r: Table<V>)
    requires t.Shaped() && 0 < t.size && 1 < |t.buckets|
    requires b < |t.buckets| && i < |t.buckets[b]|
    ensures r.Shaped()
  {
    Merge(t.(buckets := t.buckets[b := EraseAt(t.buckets[b], i)], size := t.size - 1))
  }

  function Erase<V, K(==)>(h: Hashing<V, K>, t: Table<V>, k: K): (r: Table<V>)
    requires t.Shaped() && |t.buckets| == t.size + 1
    requires Has(h, t, k) ==> 0 < t.size
    ensures r.Shaped()
  {
    if !Has(h, t, k) then t else
    var b := t.Home(h.hash(k));
    EraseFrom(t, b, IndexOfKey(h, t.buckets[b], k))
  }

  // ---------------------------------------------------------------- refinement of a finite map

  ghost predicate DistinctKeys<V, K(!new)>(h: Hashing<V, K>, xs: seq<V>) {
    forall i, j :: 0 <= i < j < |xs| ==> h.key(xs[i]) != h.key(xs[j])
  }

  /** The bucket holds exactly the values that m gives to the keys ks, each once. */
  ghost predicate BucketHolds<V, K(!new)>(h: Hashing<V, K>, xs: seq<V>, m: map<K, V>, ks: set<K>) {
    && (forall v :: v in xs ==> h.key(v) in ks && h.key(v) in m && m[h.key(v)] == v)
    && (forall k :: k in ks ==> k in m && m[k] in xs)
    && DistinctKeys(h, xs)
  }

  /** The keys of m whose address under the given geometry is bucket b. */
  ghost function Residents<V, K(!new)>(h: Hashing<V, K>, m: map<K, V>, split: nat, front: nat, b: nat): set<K>
    requires 0 < front
  {
    set k | k in m && Address(h.hash(k), split, front) == b
  }

  ghost predicate Placed<V, K(!new)>(h: Hashing<V, K>, t: Table<V>, m: map<K, V>) {
    && t.Shaped()
    && (forall k :: k in m ==> h.key(m[k]) == k)
    && (forall b :: 0 <= b < |t.buckets| ==>
          BucketHolds(h, t.buckets[b], m, Residents(h, m, t.split, t.front, b)))
  }

  /** The table stores exactly the values of m, keyed by m's keys: each value sits in the bucket
      its address names and nowhere else, and there is one bucket more than there are values. */
  ghost predicate Represents<V, K(!new)>(h: Hashing<V, K>, t: Table<V>, m: map<K, V>) {
    Placed(h, t, m) && t.size == |m| && |t.buckets| == t.size + 1
  }

  // -- what happens to one bucket

  lemma {:induction false} KeepMembers<V, K>(h: Hashing<V, K>, xs: seq<V>, split: nat, front: nat, b: nat)
    requires 0 < front
    ensures forall v :: v in Keep(h, xs, split, front, b) ==> v in xs && Address(h.Of(v), split, front) == b
    ensures forall v :: v in xs && Address(h.Of(v), split, front) == b ==> v in Keep(h, xs, split, front, b)
  {
    if xs != [] {
      assert xs == xs[..|xs| - 1] + [xs[|xs| - 1]];
      KeepMembers(h, xs[..|xs| - 1], split, front, b);
    }
  }

  lemma {:induction false} KeepDistinct<V, K(!new)>(h: Hashing<V, K>, xs: seq<V>, split: nat, front: nat, b: nat)
    requires 0 < front && DistinctKeys(h, xs)
    ensures DistinctKeys(h, Keep(h, xs, split, front, b))
  {
    if xs != [] {
      var init, last := xs[..|xs| - 1], xs[|xs| - 1];
      KeepDistinct(h, init, split, front, b);
      KeepMembers(h, init, split, front, b);
      var kept := Keep(h, init, split, front, b);
      forall j | 0 <= j < |kept| ensures h.key(kept[j]) != h.key(last) {
        assert kept[j] in init;
        var i :| 0 <= i < |init| && init[i] == kept[j];
        assert xs[i] == kept[j];
      }
    }
  }

  lemma KeepHolds<V, K(!new)>(h: Hashing<V, K>, xs: seq<V>, m: map<K, V>, ks: set<K>, ks': set<K>,
                              split: nat, front: nat, b: nat)
    requires 0 < front && BucketHolds(h, xs, m, ks)
    requires forall k :: k in m ==> h.key(m[k]) == k
    requires ks' == set k | k in ks && Address(h.hash(k), split, front) == b
    ensures BucketHolds(h, Keep(h, xs, split, front, b), m, ks')
  {
    KeepMembers(h, xs, split, front, b);
    KeepDistinct(h, xs, split, front, b);
  }

  lemma JoinHolds<V, K(!new)>(h: Hashing<V, K>, xs: seq<V>, ys: seq<V>, m: map<K, V>, ks: set<K>, ls: set<K>)
    requires BucketHolds(h, xs, m, ks) && BucketHolds(h, ys, m, ls) && ks !! ls
    ensures BucketHolds(h, xs + ys, m, ks + ls)
  {
    forall i, j | 0 <= i < j < |xs + ys| ensures h.key((xs + ys)[i]) != h.key((xs + ys)[j]) {
      if i < |xs| <= j {
        assert xs[i] in xs && ys[j - |xs|] in ys;
      }
    }
  }

  /** Adding a mapping leaves a bucket alone unless the new key lives there, and then appends. */
  lemma AppendHolds<V, K(!new)>(h: Hashing<V, K>, xs: seq<V>, m: map<K, V>, ks: set<K>, v: V)
    requires BucketHolds(h, xs, m, ks) && h.key(v) !in m
    ensures BucketHolds(h, xs, m[h.key(v) := v], ks)
    ensures BucketHolds(h, xs + [v], m[h.key(v) := v], ks + {h.key(v)})
  {
    var m' := m[h.key(v) := v];
    assert BucketHolds(h, xs, m', ks);
    assert BucketHolds(h, [v], m', {h.key(v)});
    JoinHolds(h, xs, [v], m', ks, {h.key(v)});
  }

  lemma RemoveHolds<V, K(!new)>(h: Hashing<V, K>, xs: seq<V>, m: map<K, V>, ks: set<K>, i: nat)
    requires BucketHolds(h, xs, m, ks) && i < |xs|
    requires forall k :: k in m ==> h.key(m[k]) == k
    ensures BucketHolds(h, EraseAt(xs, i), m - {h.key(xs[i])}, ks - {h.key(xs[i])})
  {
    var ys, k := EraseAt(xs, i), h.key(xs[i]);
    forall v | v in ys ensures v in xs && h.key(v) != k {
      var j :| 0 <= j < |ys| && ys[j] == v;
      assert v == xs[if j < i then j else j + 1];
    }
    forall v | v in xs && h.key(v) != k ensures v in ys {
      var j :| 0 <= j < |xs| && xs[j] == v;
      assert v == ys[if j < i then j else j - 1];
    }
  }

  // -- what happens to the addresses

  lemma SplitResidents<V, K(!new)>(h: Hashing<V, K>, m: map<K, V>, s: nat, f: nat)
    requires s < f
    ensures forall b: nat :: b != s && b != f + s ==> Residents(h, m, s + 1, f, b) == Residents(h, m, s, f, b)
    ensures Residents(h, m, s + 1, f, s) !! Residents(h, m, s + 1, f, f + s)
    ensures Residents(h, m, s + 1, f, s) + Residents(h, m, s + 1, f, f + s) == Residents(h, m, s, f, s)
  {
    forall k | k in m
      ensures var a, a' := Address(h.hash(k), s, f), Address(h.hash(k), s + 1, f);
              && (a != s ==> a' == a) && (a == s ==> a' in {s, f + s}) && (a' == f + s ==> a == s)
    {
      SplitReaddresses(h.hash(k), s, f);
    }
  }

  lemma FullRoundResidents<V, K(!new)>(h: Hashing<V, K>, m: map<K, V>, f: nat, b: nat)
    requires 0 < f
    ensures Residents(h, m, f, f, b) == Residents(h, m, 0, 2 * f, b)
  {
    forall k | k in m ensures Address(h.hash(k), f, f) == Address(h.hash(k), 0, 2 * f) {
      FullRoundAddresses(h.hash(k), f);
    }
  }

  // -- what happens to the table

  lemma SplitBucketPlaced<V, K(!new)>(h: Hashing<V, K>, t: Table<V>, m: map<K, V>)
    requires Placed(h, t, m) && t.split < t.front
    ensures Placed(h, SplitBucket(h, t), m)
  {
    var s, f, r := t.split, t.front, SplitBucket(h, t);
    SplitResidents(h, m, s, f);
    forall b | 0 <= b < |r.buckets| ensures BucketHolds(h, r.buckets[b], m, Residents(h, m, s + 1, f, b)) {
      if b == s || b == f + s {
        var ks, ks' := Residents(h, m, s, f, s), Residents(h, m, s + 1, f, b);
        assert BucketHolds(h, t.buckets[s], m, ks);
        assert forall k :: k in ks' ==> k in ks;
        assert ks' == set k | k in ks && Address(h.hash(k), s + 1, f) == b;
        KeepHolds(h, t.buckets[s], m, ks, ks', s + 1, f, b);
      } else {
        assert BucketHolds(h, t.buckets[b], m, Residents(h, m, s, f, b));
      }
    }
  }

  lemma MergeBucketPlaced<V, K(!new)>(h: Hashing<V, K>, t: Table<V>, m: map<K, V>)
    requires Placed(h, t, m) && 0 < t.split
    ensures Placed(h, MergeBucket(t), m)
  {
    var s, f, r, n := t.split - 1, t.front, MergeBucket(t), |t.buckets| - 1;
    SplitResidents(h, m, s, f);
    forall b | 0 <= b < |r.buckets| ensures BucketHolds(h, r.buckets[b], m, Residents(h, m, s, f, b)) {
      assert BucketHolds(h, t.buckets[b], m, Residents(h, m, s + 1, f, b));
      if b == s {
        assert BucketHolds(h, t.buckets[n], m, Residents(h, m, s + 1, f, n));
        JoinHolds(h, t.buckets[s], t.buckets[n], m, Residents(h, m, s + 1, f, s), Residents(h, m, s + 1, f, n));
      }
    }
  }

  lemma {:induction false} KeepAllOrNone<V, K>(h: Hashing<V, K>, xs: seq<V>, split: nat, front: nat, b: nat)
    requires 0 < front
    ensures (forall v :: v in xs ==> Address(h.Of(v), split, front) == b) ==> Keep(h, xs, split, front, b) == xs
    ensures (forall v :: v in xs ==> Address(h.Of(v), split, front) != b) ==> Keep(h, xs, split, front, b) == []
  {
    if xs != [] {
      var init := xs[..|xs| - 1];
      assert xs == init + [xs[|xs| - 1]];
      KeepAllOrNone(h, init, split, front, b);
    }
  }

  /** The effect of handing out the values of a detached bucket: each joins the bucket its address
      names, in order, and nothing else moves. */
  ghost predicate Rehashed<V, K(!new)>(h: Hashing<V, K>, before: seq<seq<V>>, after: seq<seq<V>>, moving: seq<V>,
                                       split: nat, front: nat)
    requires 0 < front
  {
    |after| == |before| &&
    forall b :: 0 <= b < |after| ==> after[b] == before[b] + Keep(h, moving, split, front, b)
  }

  /** Rehashing all residents of the split bucket puts each back there or into the new bucket. */
  lemma {:induction false} SplitBucketRehashes<V, K(!new)>(h: Hashing<V, K>, t: Table<V>, m: map<K, V>, after: seq<seq<V>>)
    requires Placed(h, t, m) && t.split < t.front
    requires Rehashed(h, (t.buckets + [[]])[t.split := []], after, t.buckets[t.split], t.split + 1, t.front)
    ensures after == SplitBucket(h, t).buckets
  {
    var s, f, r := t.split, t.front, SplitBucket(h, t).buckets;
    assert BucketHolds(h, t.buckets[s], m, Residents(h, m, s, f, s));
    forall b | 0 <= b < |after| ensures after[b] == r[b] {
      if b != s && b != f + s {
        forall v | v in t.buckets[s] ensures Address(h.Of(v), s + 1, f) != b {
          SplitReaddresses(h.Of(v), s, f);
        }
        KeepAllOrNone(h, t.buckets[s], s + 1, f, b);
      }
    }
  }

  /** Rehashing the residents of the dropped bucket sends all of them to one bucket. */
  lemma {:induction false} MergeBucketRehashes<V, K(!new)>(h: Hashing<V, K>, t: Table<V>, m: map<K, V>, after: seq<seq<V>>)
    requires Placed(h, t, m) && 0 < t.split
    requires var n := |t.buckets| - 1; Rehashed(h, t.buckets[..n], after, t.buckets[n], t.split - 1, t.front)
    ensures after == MergeBucket(t).buckets
  {
    var s, f, n, r := t.split - 1, t.front, |t.buckets| - 1, MergeBucket(t).buckets;
    assert BucketHolds(h, t.buckets[n], m, Residents(h, m, s + 1, f, n));
    forall v | v in t.buckets[n] ensures Address(h.Of(v), s, f) == s {
      SplitReaddresses(h.Of(v), s, f);
    }
    forall b | 0 <= b < |after| ensures after[b] == r[b] {
      KeepAllOrNone(h, t.buckets[n], s, f, b);
      assert after[b] == t.buckets[b] + Keep(h, t.buckets[n], s, f, b);
    }
  }

  lemma RoundsPlaced<V, K(!new)>(h: Hashing<V, K>, t: Table<V>, m: map<K, V>)
    requires Placed(h, t, m)
    ensures Placed(h, NextRound(t), m)
    ensures 1 < |t.buckets| ==> Placed(h, PreviousRound(t), m)
  {
    forall b: nat
      ensures Residents(h, m, t.front, t.front, b) == Residents(h, m, 0, 2 * t.front, b)
      ensures t.split == 0 && 1 < |t.buckets| ==>
                Residents(h, m, t.front / 2, t.front / 2, b) == Residents(h, m, 0, t.front, b)
    {
      FullRoundResidents(h, m, t.front, b);
      if t.split == 0 && 1 < |t.buckets| {
        FullRoundResidents(h, m, t.front / 2, b);
      }
    }
  }

  lemma {:induction false} SplitPlaced<V, K(!new)>(h: Hashing<V, K>, t: Table<V>, m: map<K, V>)
    requires Placed(h, t, m)
    ensures Placed(h, Split(h, t), m)
  {
    RoundsPlaced(h, t, m);
    SplitBucketPlaced(h, NextRound(t), m);
  }

  lemma {:induction false} MergePlaced<V, K(!new)>(h: Hashing<V, K>, t: Table<V>, m: map<K, V>)
    requires Placed(h, t, m) && 1 < |t.buckets|
    ensures Placed(h, Merge(t), m)
  {
    RoundsPlaced(h, t, m);
    MergeBucketPlaced(h, PreviousRound(t), m);
  }

  /** find and count answer membership of the represented map. */
  lemma {:induction false} HasIsMembership<V, K(!new)>(h: Hashing<V, K>, t: Table<V>, m: map<K, V>, k: K)
    requires Placed(h, t, m)
    ensures Has(h, t, k) <==> k in m
    ensures k in m ==> var xs := t.buckets[t.Home(h.hash(k))]; xs[IndexOfKey(h, xs, k)] == m[k]
  {
    var b := t.Home(h.hash(k));
    var xs := t.buckets[b];
    assert BucketHolds(h, xs, m, Residents(h, m, t.split, t.front, b));
    var i := IndexOfKey(h, xs, k);
    if i < |xs| {
      assert xs[i] in xs;
    } else if k in m {
      assert false;
    }
  }

  lemma {:induction false} InsertRepresents<V, K(!new)>(h: Hashing<V, K>, t: Table<V>, m: map<K, V>, v: V)
    requires Represents(h, t, m)
    ensures var k := h.key(v);
            if k in m then Insert(h, t, v) == t else Represents(h, Insert(h, t, v), m[k := v])
  {
    var k := h.key(v);
    HasIsMembership(h, t, m, k);
    if k !in m {
      SplitPlaced(h, t, m);
      AppendPlaced(h, Split(h, t), m, v);
      assert m[k := v].Keys == m.Keys + {k};
    }
  }

  lemma {:induction false} AppendPlaced<V, K(!new)>(h: Hashing<V, K>, g: Table<V>, m: map<K, V>, v: V)
    requires Placed(h, g, m) && h.key(v) !in m
    ensures var a := g.Home(h.Of(v));
            Placed(h, g.(buckets := g.buckets[a := g.buckets[a] + [v]], size := g.size + 1), m[h.key(v) := v])
  {
    var a, m' := g.Home(h.Of(v)), m[h.key(v) := v];
    var r := g.(buckets := g.buckets[a := g.buckets[a] + [v]], size := g.size + 1);
    forall b | 0 <= b < |r.buckets| ensures BucketHolds(h, r.buckets[b], m', Residents(h, m', g.split, g.front, b)) {
      var ks := Residents(h, m, g.split, g.front, b);
      assert Residents(h, m', g.split, g.front, b) == if b == a then ks + {h.key(v)} else ks;
      AppendHolds(h, g.buckets[b], m, ks, v);
    }
  }

  lemma {:induction false} RemovePlaced<V, K(!new)>(h: Hashing<V, K>, t: Table<V>, m: map<K, V>, b: nat, i: nat)
    requires Placed(h, t, m) && b < |t.buckets| && i < |t.buckets[b]|
    ensures h.key(t.buckets[b][i]) in m
    ensures Placed(h, t.(buckets := t.buckets[b := EraseAt(t.buckets[b], i)]), m - {h.key(t.buckets[b][i])})
  {
    var xs, k := t.buckets[b], h.key(t.buckets[b][i]);
    var ks, m' := Residents(h, m, t.split, t.front, b), m - {k};
    assert BucketHolds(h, xs, m, ks) && xs[i] in xs;
    var r := t.(buckets := t.buckets[b := EraseAt(xs, i)]);
    forall c | 0 <= c < |r.buckets| ensures BucketHolds(h, r.buckets[c], m', Residents(h, m', t.split, t.front, c)) {
      var ls := Residents(h, m, t.split, t.front, c);
      assert Residents(h, m', t.split, t.front, c) == ls - {k};
      if c == b {
        RemoveHolds(h, xs, m, ks, i);
      } else {
        assert BucketHolds(h, t.buckets[c], m, ls) && k !in ls;
        assert ls - {k} == ls;
      }
    }
  }

  /** Overwriting a stored value in place by one with the same key changes that mapping only. */
  lemma {:induction false} AssignRepresents<V, K(!new)>(h: Hashing<V, K>, t: Table<V>, m: map<K, V>, b: nat, i: nat, v: V)
    requires Represents(h, t, m) && b < |t.buckets| && i < |t.buckets[b]|
    requires h.key(t.buckets[b][i]) == h.key(v)
    ensures h.key(v) in m
    ensures Represents(h, t.(buckets := t.buckets[b := t.buckets[b][i := v]]), m[h.key(v) := v])
  {
    var xs, k, m' := t.buckets[b], h.key(v), m[h.key(v) := v];
    var r := t.(buckets := t.buckets[b := xs[i := v]]);
    assert BucketHolds(h, xs, m, Residents(h, m, t.split, t.front, b)) && xs[i] in xs;
    assert m'.Keys == m.Keys;
    forall c | 0 <= c < |r.buckets| ensures BucketHolds(h, r.buckets[c], m', Residents(h, m', t.split, t.front, c)) {
      var ks := Residents(h, m, t.split, t.front, c);
      assert Residents(h, m', t.split, t.front, c) == ks;
      assert BucketHolds(h, t.buckets[c], m, ks);
      if c == b {
        AssignHolds(h, xs, m, ks, i, v);
      }
    }
  }

  lemma AssignHolds<V, K(!new)>(h: Hashing<V, K>, xs: seq<V>, m: map<K, V>, ks: set<K>, i: nat, v: V)
    requires BucketHolds(h, xs, m, ks) && i < |xs| && h.key(xs[i]) == h.key(v)
    requires forall k :: k in m ==> h.key(m[k]) == k
    ensures BucketHolds(h, xs[i := v], m[h.key(v) := v], ks)
  {
    var ys, k := xs[i := v], h.key(v);
    assert xs[i] in xs && ys[i] in ys;
    forall w | w in ys ensures w == v || (w in xs && h.key(w) != k) {
      var j :| 0 <= j < |ys| && ys[j] == w;
      if j != i {
        assert xs[j] == w;
      }
    }
    forall w | w in xs && h.key(w) != k ensures w in ys {
      var j :| 0 <= j < |xs| && xs[j] == w;
      assert ys[j] == w;
    }
  }

  /** Erasing the value at a valid position removes exactly that value, and the merge that
      follows never finds the table with its one initial bucket only. */
  lemma {:induction false} EraseFromRepresents<V, K(!new)>(h: Hashing<V, K>, t: Table<V>, m: map<K, V>, b: nat, i: nat)
    requires Represents(h, t, m)
    requires b < |t.buckets| && i < |t.buckets[b]|
    ensures h.key(t.buckets[b][i]) in m && 0 < t.size && 1 < |t.buckets|
    ensures Represents(h, EraseFrom(t, b, i), m - {h.key(t.buckets[b][i])})
  {
    RemovePlaced(h, t, m, b, i);
    DropSize(m, h.key(t.buckets[b][i]));
    var removed := t.(buckets := t.buckets[b := EraseAt(t.buckets[b], i)]);
    ResizedPlaced(h, removed, m - {h.key(t.buckets[b][i])}, t.size - 1);
    MergePlaced(h, removed.(size := t.size - 1), m - {h.key(t.buckets[b][i])});
  }

  /** The count of values plays no part in where they are. */
  lemma ResizedPlaced<V, K(!new)>(h: Hashing<V, K>, t: Table<V>, m: map<K, V>, n: nat)
    requires Placed(h, t, m)
    ensures Placed(h, t.(size := n), m)
  {
  }

  lemma DropSize<V, K>(m: map<K, V>, k: K)
    requires k in m
    ensures |m| == |m - {k}| + 1
  {
    assert m.Keys == (m - {k}).Keys + {k};
  }

  lemma {:induction false} EraseRepresents<V, K(!new)>(h: Hashing<V, K>, t: Table<V>, m: map<K, V>, k: K)
    requires Represents(h, t, m)
    ensures Has(h, t, k) ==> 0 < t.size
    ensures Represents(h, Erase(h, t, k), m - {k})
    ensures k !in m ==> Erase(h, t, k) == t
  {
    HasIsMembership(h, t, m, k);
    if k in m {
      var b := t.Home(h.hash(k));
      EraseFromRepresents(h, t, m, b, IndexOfKey(h, t.buckets[b], k));
    } else {
      assert m - {k} == m;
    }
  }

  // ---------------------------------------------------------------- whole runs

  datatype Op<V, K> = InsertOp(v: V) | EraseOp(k: K) | ClearOp

  /** What one operation does to the represented map. */
  function ApplyToMap<V, K(==)>(h: Hashing<V, K>, m: map<K, V>, op: Op<V, K>): map<K, V> {
    match op
    case InsertOp(v) => if h.key(v) in m then m else m[h.key(v) := v]
    case EraseOp(k) => m - {k}
    case ClearOp => map[]
  }

  function RunMap<V, K(==)>(h: Hashing<V, K>, ops: seq<Op<V, K>>): map<K, V> {
    if ops == [] then map[] else ApplyToMap(h, RunMap(h, ops[..|ops| - 1]), ops[|ops| - 1])
  }

  lemma EmptyRepresents<V, K(!new)>(h: Hashing<V, K>)
    ensures Represents(h, EmptyTable<V>(), map[])
  {
  }

  lemma InsertApplies<V, K(!new)>(h: Hashing<V, K>, t: Table<V>, m: map<K, V>, v: V)
    requires Represents(h, t, m)
    ensures Represents(h, Insert(h, t, v), ApplyToMap(h, m, InsertOp(v)))
  {
    InsertRepresents(h, t, m, v);
  }

  /** One operation on a table that represents m. */
  ghost function Apply<V, K(!new)>(h: Hashing<V, K>, t: Table<V>, m: map<K, V>, op: Op<V, K>): (r: Table<V>)
    requires Represents(h, t, m)
    ensures Represents(h, r, ApplyToMap(h, m, op))
  {
    match op
    case InsertOp(v) => InsertApplies(h, t, m, v); Insert(h, t, v)
    case EraseOp(k) => EraseRepresents(h, t, m, k); Erase(h, t, k)
    case ClearOp => EmptyRepresents(h); EmptyTable()
  }

  /** The table after a run, starting from the empty table. */
  ghost function Run<V, K(!new)>(h: Hashing<V, K>, ops: seq<Op<V, K>>): (t: Table<V>)
    ensures Represents(h, t, RunMap(h, ops))
  {
    if ops == [] then EmptyRepresents(h); EmptyTable() else
    var init := ops[..|ops| - 1];
    Apply(h, Run(h, init), RunMap(h, init), ops[|ops| - 1])
  }

  lemma {:induction false} DistinctMultiset<V, K(!new)>(h: Hashing<V, K>, xs: seq<V>, v: V)
    requires DistinctKeys(h, xs)
    ensures multiset(xs)[v] == if v in xs then 1 else 0
  {
    if xs != [] {
      var n := |xs| - 1;
      assert xs == xs[..n] + [xs[n]];
      DistinctMultiset(h, xs[..n], v);
      if v in xs[..n] {
        var j :| 0 <= j < n && xs[j] == v;
      }
    }
  }

  /** Two tables that represent the same map have the same number of buckets and the same
      contents in every bucket, whichever of the two geometries each one uses. */
  lemma {:induction false} SameMapSameBuckets<V, K(!new)>(h: Hashing<V, K>, t: Table<V>, t': Table<V>, m: map<K, V>)
    requires Represents(h, t, m) && Represents(h, t', m)
    ensures |t.buckets| == |t'.buckets|
    ensures forall b :: 0 <= b < |t.buckets| ==> multiset(t.buckets[b]) == multiset(t'.buckets[b])
  {
    forall n: nat ensures Address(n, t.split, t.front) == Address(n, t'.split, t'.front) {
      AddressByCount(n, t.split, t.front, t'.split, t'.front, |t.buckets|);
    }
    forall b, v | 0 <= b < |t.buckets|
      ensures multiset(t.buckets[b])[v] == multiset(t'.buckets[b])[v]
    {
      var xs, ys := t.buckets[b], t'.buckets[b];
      var ks := Residents(h, m, t.split, t.front, b);
      assert ks == Residents(h, m, t'.split, t'.front, b);
      assert BucketHolds(h, xs, m, ks) && BucketHolds(h, ys, m, ks);
      DistinctMultiset(h, xs, v);
      DistinctMultiset(h, ys, v);
    }
  }

  /** History independence: any two runs that leave the same values leave the same buckets. */
  lemma {:induction false} HistoryIndependence<V, K(!new)>(h: Hashing<V, K>, ops: seq<Op<V, K>>, ops': seq<Op<V, K>>)
    requires RunMap(h, ops) == RunMap(h, ops')
    ensures var t, t' := Run(h, ops), Run(h, ops');
            && |t.buckets| == |t'.buckets| == |RunMap(h, ops)| + 1
            && forall b :: 0 <= b < |t.buckets| ==> multiset(t.buckets[b]) == multiset(t'.buckets[b])
  {
    SameMapSameBuckets(h, Run(h, ops), Run(h, ops'), RunMap(h, ops));
  }

  lemma InsertGeometry<V, K(!new)>(h: Hashing<V, K>, t: Table<V>, m: map<K, V>, v: V)
    requires Represents(h, t, m) && h.key(v) !in m
    ensures var r := NextRound(t);
            Insert(h, t, v).split == r.split + 1 && Insert(h, t, v).front == r.front
  {
    HasIsMembership(h, t, m, h.key(v));
  }

  lemma EraseGeometry<V, K(!new)>(h: Hashing<V, K>, t: Table<V>, m: map<K, V>, k: K)
    requires Represents(h, t, m) && k in m
    ensures 1 < |t.buckets| && 0 < t.size
    ensures var r := PreviousRound(t);
            Erase(h, t, k).split == r.split - 1 && Erase(h, t, k).front == r.front
  {
    HasIsMembership(h, t, m, k);
    assert m.Keys != {};
  }

  /** The two geometries are both reachable: one insertion ends with split = front = 1, while two
      insertions and an erasure end with split = 0 and front = 2. */
  lemma {:induction false} BothGeometriesReachable<V, K(!new)>(h: Hashing<V, K>, v: V, w: V)
    requires h.key(v) != h.key(w)
    ensures var one := Run(h, [InsertOp(v)]); (one.split, one.front) == (1, 1)
    ensures var two := Run(h, [InsertOp(v), InsertOp(w), EraseOp(h.key(w))]); (two.split, two.front) == (0, 2)
    ensures RunMap(h, [InsertOp(v)]) == RunMap(h, [InsertOp(v), InsertOp(w), EraseOp(h.key(w))])
  {
    InsertRuns(h, v, w);
    EraseRun(h, [InsertOp(v), InsertOp(w)], h.key(w));
    assert [InsertOp(v), InsertOp(w)] + [EraseOp(h.key(w))] == [InsertOp(v), InsertOp(w), EraseOp(h.key(w))];
    assert map[h.key(v) := v][h.key(w) := w] - {h.key(w)} == map[h.key(v) := v];
  }

  lemma EraseRun<V, K(!new)>(h: Hashing<V, K>, ops: seq<Op<V, K>>, k: K)
    requires k in RunMap(h, ops)
    ensures RunMap(h, ops + [EraseOp(k)]) == RunMap(h, ops) - {k}
    ensures 1 < |Run(h, ops).buckets|
    ensures var r, t := PreviousRound(Run(h, ops)), Run(h, ops + [EraseOp(k)]); t.split == r.split - 1 && t.front == r.front
  {
    RunSnoc(h, ops, EraseOp(k));
    EraseGeometry(h, Run(h, ops), RunMap(h, ops), k);
  }

  lemma FirstInsert<V, K(!new)>(h: Hashing<V, K>, v: V)
    ensures RunMap(h, [InsertOp(v)]) == map[h.key(v) := v]
    ensures (Run(h, [InsertOp(v)]).split, Run(h, [InsertOp(v)]).front) == (1, 1)
  {
    var none: seq<Op<V, K>> := [];
    InsertRun(h, none, v);
    assert none + [InsertOp(v)] == [InsertOp(v)];
  }

  lemma InsertRuns<V, K(!new)>(h: Hashing<V, K>, v: V, w: V)
    requires h.key(v) != h.key(w)
    ensures var a, b := InsertOp(v), InsertOp(w);
            && RunMap(h, [a]) == map[h.key(v) := v] && RunMap(h, [a, b]) == map[h.key(v) := v][h.key(w) := w]
            && (Run(h, [a]).split, Run(h, [a]).front) == (1, 1)
            && (Run(h, [a, b]).split, Run(h, [a, b]).front) == (1, 2)
  {
    FirstInsert(h, v);
    var first: seq<Op<V, K>> := [InsertOp(v)];
    InsertRun(h, first, w);
    assert first + [InsertOp(w)] == [InsertOp(v), InsertOp(w)];
  }

  lemma InsertRun<V, K(!new)>(h: Hashing<V, K>, ops: seq<Op<V, K>>, v: V)
    requires h.key(v) !in RunMap(h, ops)
    ensures RunMap(h, ops + [InsertOp(v)]) == RunMap(h, ops)[h.key(v) := v]
    ensures var r, t := NextRound(Run(h, ops)), Run(h, ops + [InsertOp(v)]); t.split == r.split + 1 && t.front == r.front
  {
    RunSnoc(h, ops, InsertOp(v));
    InsertGeometry(h, Run(h, ops), RunMap(h, ops), v);
  }

  lemma RunSnoc<V, K(!new)>(h: Hashing<V, K>, ops: seq<Op<V, K>>, op: Op<V, K>)
    ensures RunMap(h, ops + [op]) == ApplyToMap(h, RunMap(h, ops), op)
    ensures Run(h, ops + [op]) == Apply(h, Run(h, ops), RunMap(h, ops), op)
  {
    assert (ops + [op])[..|ops|] == ops;
  }

  // ---------------------------------------------------------------- iteration

  /** An iterator: a bucket and an index into it. The end iterator is past the last bucket, and
      its index is not looked at. */
  datatype Position = Position(bucket: nat, index: nat)

  predicate Dereferenceable<V>(buckets: seq<seq<V>>, p: Position) {
    p.bucket < |buckets| && p.index < |buckets[p.bucket]|
  }

  predicate IsPosition<V>(buckets: seq<seq<V>>, p: Position) {
    p.bucket == |buckets| || Dereferenceable(buckets, p)
  }

  predicate SamePosition<V>(buckets: seq<seq<V>>, p: Position, q: Position) {
    p.bucket == q.bucket && (p.bucket == |buckets| || p.index == q.index)
  }

  /** Moves on from index i of bucket b past the ends of buckets to a value or to the end. */
  function Settle<V>(buckets: seq<seq<V>>, b: nat, i: nat): (p: Position)
    requires b <= |buckets| && (b < |buckets| ==> i <= |buckets[b]|)
    ensures IsPosition(buckets, p)
    decreases |buckets| - b
  {
    if b == |buckets| || i < |buckets[b]| then Position(b, i) else Settle(buckets, b + 1, 0)
  }

  /** All stored values in bucket order. */
  ghost function Flat<V>(buckets: seq<seq<V>>): seq<V> {
    if buckets == [] then [] else Flat(buckets[..|buckets| - 1]) + buckets[|buckets| - 1]
  }

  /** The number of values an iterator has passed. */
  ghost function Rank<V>(buckets: seq<seq<V>>, p: Position): nat
    requires IsPosition(buckets, p)
  {
    if p.bucket == |buckets| then |Flat(buckets)| else |Flat(buckets[..p.bucket])| + p.index
  }

  lemma FlatStep<V>(buckets: seq<seq<V>>, b: nat)
    requires b < |buckets|
    ensures Flat(buckets[..b + 1]) == Flat(buckets[..b]) + buckets[b]
  {
    assert buckets[..b + 1][..b] == buckets[..b];
  }

  /** An iterator that has passed r values points at value number r; at the end, r is the size. */
  lemma {:induction false} RankValue<V>(buckets: seq<seq<V>>, p: Position)
    requires Dereferenceable(buckets, p)
    ensures Rank(buckets, p) < |Flat(buckets)|
    ensures Flat(buckets)[Rank(buckets, p)] == buckets[p.bucket][p.index]
  {
    FlatPrefix(buckets, p.bucket + 1);
    FlatStep(buckets, p.bucket);
  }

  lemma {:induction false} FlatPrefix<V>(buckets: seq<seq<V>>, b: nat)
    requires b <= |buckets|
    ensures Flat(buckets[..b]) <= Flat(buckets)
    decreases |buckets| - b
  {
    if b == |buckets| {
      assert buckets[..b] == buckets;
    } else {
      FlatStep(buckets, b);
      FlatPrefix(buckets, b + 1);
    }
  }

  lemma {:induction false} SettleRank<V>(buckets: seq<seq<V>>, b: nat, i: nat)
    requires b <= |buckets| && if b < |buckets| then i <= |buckets[b]| else i == 0
    ensures Rank(buckets, Settle(buckets, b, i)) == |Flat(buckets[..b])| + i
    decreases |buckets| - b
  {
    if b == |buckets| {
      assert buckets[..b] == buckets;
    } else if i == |buckets[b]| {
      FlatStep(buckets, b);
      SettleRank(buckets, b + 1, 0);
    }
  }

  /** The values met by ++ from p until end(). It is well founded because every step raises the rank. */
  ghost function Visited<V>(buckets: seq<seq<V>>, p: Position): seq<V>
    requires IsPosition(buckets, p)
    decreases |Flat(buckets)| - Rank(buckets, p)
  {
    if p.bucket == |buckets| then [] else
    RankValue(buckets, p);
    SettleRank(buckets, p.bucket, p.index + 1);
    [buckets[p.bucket][p.index]] + Visited(buckets, Settle(buckets, p.bucket, p.index + 1))
  }

  lemma {:induction false} VisitedIsRest<V>(buckets: seq<seq<V>>, p: Position)
    requires IsPosition(buckets, p)
    ensures Rank(buckets, p) <= |Flat(buckets)|
    ensures Visited(buckets, p) == Flat(buckets)[Rank(buckets, p)..]
    decreases |Flat(buckets)| - Rank(buckets, p)
  {
    if p.bucket < |buckets| {
      RankValue(buckets, p);
      SettleRank(buckets, p.bucket, p.index + 1);
      VisitedIsRest(buckets, Settle(buckets, p.bucket, p.index + 1));
    }
  }

  lemma {:induction false} FlatCounts<V, K(!new)>(h: Hashing<V, K>, t: Table<V>, m: map<K, V>, n: nat, v: V)
    requires Placed(h, t, m) && n <= |t.buckets|
    ensures multiset(Flat(t.buckets[..n]))[v] ==
            if h.key(v) in m && m[h.key(v)] == v && t.Home(h.Of(v)) < n then 1 else 0
  {
    if n != 0 {
      FlatStep(t.buckets, n - 1);
      FlatCounts(h, t, m, n - 1, v);
      assert BucketHolds(h, t.buckets[n - 1], m, Residents(h, m, t.split, t.front, n - 1));
      DistinctMultiset(h, t.buckets[n - 1], v);
    }
  }

  /** Iterating from begin() to end() meets every stored value exactly once and nothing else. */
  lemma {:induction false} IterationVisitsEachOnce<V, K(!new)>(h: Hashing<V, K>, t: Table<V>, m: map<K, V>, v: V)
    requires Placed(h, t, m)
    ensures multiset(Visited(t.buckets, Settle(t.buckets, 0, 0)))[v] ==
            if h.key(v) in m && m[h.key(v)] == v then 1 else 0
  {
    assert t.buckets[..0] == [] && t.buckets[..|t.buckets|] == t.buckets;
    SettleRank(t.buckets, 0, 0);
    VisitedIsRest(t.buckets, Settle(t.buckets, 0, 0));
    assert Flat(t.buckets)[0..] == Flat(t.buckets);
    FlatCounts(h, t, m, |t.buckets|, v);
  }
}
