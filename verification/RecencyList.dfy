/** The abstract LRU cache: an association list, most recently used entry first, of bounded
    length; and the inclusion property of two such caches of different capacities. */
module RecencyLists {

  import opened Outcomes

  datatype Entry<K, V> = Entry(key: K, value: V)

  function Without<K(==), V>(xs: seq<Entry<K, V>>, k: K): seq<Entry<K, V>> {
    if xs == [] then []
    else if xs[0].key == k then Without(xs[1..], k)
    else [xs[0]] + Without(xs[1..], k)
  }

  function Truncate<T>(xs: seq<T>, n: nat): seq<T> {
    if |xs| <= n then xs else xs[..n]
  }

  function Lookup<K(==), V>(xs: seq<Entry<K, V>>, k: K): Option<V> {
    if xs == [] then None else if xs[0].key == k then Some(xs[0].value) else Lookup(xs[1..], k)
  }

  datatype Op<K, V> = Put(key: K, value: V) | Get(key: K) | Remove(key: K) | Clear

  /** add and update both store the value and make the key the most recent one; get makes a key
      it finds the most recent one. */
  function Step<K(==), V>(xs: seq<Entry<K, V>>, op: Op<K, V>, capacity: nat): seq<Entry<K, V>> {
    match op
    case Put(k, v) => Truncate([Entry(k, v)] + Without(xs, k), capacity)
    case Get(k) => if Lookup(xs, k).None? then xs else [Entry(k, Lookup(xs, k).value)] + Without(xs, k)
    case Remove(k) => Without(xs, k)
    case Clear => []
  }

  function Run<K(==), V>(ops: seq<Op<K, V>>, capacity: nat): seq<Entry<K, V>> {
    if ops == [] then [] else Step(Run(ops[..|ops| - 1], capacity), ops[|ops| - 1], capacity)
  }

  // ---------------------------------------------------------------- basic facts

  ghost predicate Distinct<K, V>(xs: seq<Entry<K, V>>) {
    forall i, j :: 0 <= i < j < |xs| ==> xs[i].key != xs[j].key
  }

  lemma {:induction false} WithoutMembers<K, V>(xs: seq<Entry<K, V>>, k: K)
    ensures forall e :: e in Without(xs, k) ==> e in xs && e.key != k
    ensures forall e :: e in xs && e.key != k ==> e in Without(xs, k)
    ensures Distinct(xs) ==> Distinct(Without(xs, k))
    ensures |Without(xs, k)| <= |xs|
  {
    if xs != [] {
      WithoutMembers(xs[1..], k);
      var rest := Without(xs[1..], k);
      if Distinct(xs) {
        forall j | 0 <= j < |rest| ensures rest[j].key != xs[0].key {
          assert rest[j] in rest;
          assert rest[j] in xs[1..];
          var i :| 0 <= i < |xs[1..]| && xs[1..][i] == rest[j];
          assert xs[0].key != xs[i + 1].key;
        }
      }
    }
  }

  lemma {:induction false} LookupMembers<K, V>(xs: seq<Entry<K, V>>, k: K)
    ensures Lookup(xs, k).Some? ==> Entry(k, Lookup(xs, k).value) in xs
    ensures Lookup(xs, k).None? ==> (forall e :: e in xs ==> e.key != k) && Without(xs, k) == xs
    ensures Lookup(xs, k).Some? && Distinct(xs) ==> |Without(xs, k)| == |xs| - 1
  {
    if xs != [] {
      LookupMembers(xs[1..], k);
    }
  }

  // ---------------------------------------------------------------- one operation, told by places

  ghost predicate HasKey<K, V>(xs: seq<Entry<K, V>>, k: K) {
    exists p: nat :: p < |xs| && xs[p].key == k
  }

  /** The entry at place p, now e, stands in front of the others, which are in their old order. */
  ghost predicate MovedToFront<K, V>(xs: seq<Entry<K, V>>, ys: seq<Entry<K, V>>, p: nat, e: Entry<K, V>) {
    p < |xs| && xs[p].key == e.key && ys == [e] + xs[..p] + xs[p + 1..]
  }

  /** A new entry stands in front of the others, of which the last is dropped if there is no room. */
  ghost predicate AddedInFront<K, V>(xs: seq<Entry<K, V>>, ys: seq<Entry<K, V>>, e: Entry<K, V>, capacity: nat) {
    !HasKey(xs, e.key) && ys == [e] + if |xs| < capacity then xs else if xs == [] then [] else xs[..|xs| - 1]
  }

  ghost predicate PutInFront<K, V>(xs: seq<Entry<K, V>>, ys: seq<Entry<K, V>>, e: Entry<K, V>, capacity: nat) {
    AddedInFront(xs, ys, e, capacity) || exists p: nat :: MovedToFront(xs, ys, p, e)
  }

  ghost predicate TakenOut<K, V>(xs: seq<Entry<K, V>>, ys: seq<Entry<K, V>>, k: K) {
    if HasKey(xs, k) then exists p: nat :: p < |xs| && xs[p].key == k && ys == xs[..p] + xs[p + 1..] else ys == xs
  }

  lemma {:induction false} WithoutAbsent<K, V>(xs: seq<Entry<K, V>>, k: K)
    requires !HasKey(xs, k)
    ensures Without(xs, k) == xs && Lookup(xs, k).None?
  {
    if xs != [] {
      forall p: nat | p < |xs[1..]| ensures xs[1..][p].key != k {
        assert xs[1..][p] == xs[p + 1];
      }
      WithoutAbsent(xs[1..], k);
    }
  }

  lemma {:induction false} WithoutAt<K, V>(xs: seq<Entry<K, V>>, p: nat)
    requires Distinct(xs) && p < |xs|
    ensures Without(xs, xs[p].key) == xs[..p] + xs[p + 1..] && Lookup(xs, xs[p].key) == Some(xs[p].value)
  {
    var rest := xs[1..];
    if p == 0 {
      WithoutAbsent(rest, xs[0].key);
    } else {
      assert rest[p - 1] == xs[p];
      WithoutAt(rest, p - 1);
      assert rest[..p - 1] == xs[1..p] && rest[p..] == xs[p + 1..];
      assert [xs[0]] + (xs[1..p] + xs[p + 1..]) == xs[..p] + xs[p + 1..];
    }
  }

  lemma FindPlace<K, V>(xs: seq<Entry<K, V>>, k: K) returns (p: nat)
    ensures p <= |xs| && (p < |xs| ==> xs[p].key == k) && (p == |xs| ==> !HasKey(xs, k))
  {
    if HasKey(xs, k) {
      p :| p < |xs| && xs[p].key == k;
    } else {
      p := |xs|;
    }
  }

  lemma PutByPlace<K, V>(xs: seq<Entry<K, V>>, k: K, v: V, n: nat)
    requires 1 <= n && Distinct(xs) && |xs| <= n
    ensures PutInFront(xs, Step(xs, Put(k, v), n), Entry(k, v), n)
  {
    var e := Entry(k, v);
    var p := FindPlace(xs, k);
    if p < |xs| {
      WithoutAt(xs, p);
      assert [e] + (xs[..p] + xs[p + 1..]) == [e] + xs[..p] + xs[p + 1..];
      assert MovedToFront(xs, Step(xs, Put(k, v), n), p, e);
    } else {
      WithoutAbsent(xs, k);
      assert |xs| == n ==> ([e] + xs)[..n] == [e] + xs[..n - 1];
    }
  }

  /** A get of the entry at place p; the length of the list stands for a key that is not there. */
  lemma GetByPlace<K, V>(xs: seq<Entry<K, V>>, k: K, n: nat) returns (p: nat)
    requires Distinct(xs)
    ensures p <= |xs|
    ensures p == |xs| ==> !HasKey(xs, k) && Lookup(xs, k).None? && Step(xs, Get(k), n) == xs
    ensures p < |xs| ==> MovedToFront(xs, Step(xs, Get(k), n), p, xs[p]) && Lookup(xs, k) == Some(xs[p].value) && xs[p].key == k
  {
    p := FindPlace(xs, k);
    if p < |xs| {
      WithoutAt(xs, p);
      assert [xs[p]] + (xs[..p] + xs[p + 1..]) == [xs[p]] + xs[..p] + xs[p + 1..];
    } else {
      WithoutAbsent(xs, k);
    }
  }

  lemma RemoveByPlace<K, V>(xs: seq<Entry<K, V>>, k: K, n: nat)
    requires Distinct(xs)
    ensures TakenOut(xs, Step(xs, Remove(k), n), k)
  {
    var p := FindPlace(xs, k);
    if p < |xs| {
      WithoutAt(xs, p);
    } else {
      WithoutAbsent(xs, k);
    }
  }

  // ---------------------------------------------------------------- inclusion

  ghost predicate Subsequence<T>(a: seq<T>, b: seq<T>) {
    a == [] || (b != [] && ((a[0] == b[0] && Subsequence(a[1..], b[1..])) || Subsequence(a, b[1..])))
  }

  lemma {:induction false} SubsequenceMembers<T>(a: seq<T>, b: seq<T>)
    requires Subsequence(a, b)
    ensures |a| <= |b|
    ensures forall e :: e in a ==> e in b
    ensures |a| == |b| ==> a == b
  {
    if a != [] {
      if a[0] == b[0] && Subsequence(a[1..], b[1..]) {
        SubsequenceMembers(a[1..], b[1..]);
        assert a == [a[0]] + a[1..] && b == [b[0]] + b[1..];
      } else {
        SubsequenceMembers(a, b[1..]);
      }
    }
  }

  lemma {:induction false} SubsequenceWithout<K, V>(a: seq<Entry<K, V>>, b: seq<Entry<K, V>>, k: K)
    requires Subsequence(a, b)
    ensures Subsequence(Without(a, k), Without(b, k))
  {
    if a != [] {
      if a[0] == b[0] && Subsequence(a[1..], b[1..]) {
        SubsequenceWithout(a[1..], b[1..], k);
      } else {
        SubsequenceWithout(a, b[1..], k);
        if b[0].key != k && Without(a, k) != [] {
          assert Without(b, k)[1..] == Without(b[1..], k);
        }
      }
    }
  }

  /** Dropping the last element of the longer list, and of the shorter one too, keeps inclusion. */
  lemma {:induction false} SubsequenceDropLast<T>(a: seq<T>, b: seq<T>)
    requires Subsequence(a, b) && a != [] && b != []
    ensures Subsequence(a[..|a| - 1], b[..|b| - 1])
    ensures Subsequence(a[..|a| - 1], b)
  {
    var a', b' := a[..|a| - 1], b[..|b| - 1];
    if a[0] == b[0] && Subsequence(a[1..], b[1..]) {
      if |a| > 1 {
        SubsequenceMembers(a[1..], b[1..]);
        SubsequenceDropLast(a[1..], b[1..]);
        assert a'[1..] == a[1..][..|a| - 2] && b'[1..] == b[1..][..|b| - 2];
      }
    } else {
      SubsequenceMembers(a, b[1..]);
      SubsequenceDropLast(a, b[1..]);
      assert b'[1..] == b[1..][..|b| - 2];
    }
  }

  /** What the two caches keep in common: the small list is a subsequence of the large one, and
      the large cache is never ahead by more entries than its capacity exceeds the other's. */
  ghost predicate Included<K, V>(a: seq<Entry<K, V>>, b: seq<Entry<K, V>>, n: nat, m: nat) {
    && Distinct(a) && Distinct(b)
    && |a| <= n && |b| <= m && |b| - |a| <= m - n
    && Subsequence(a, b)
  }

  /** Entries with the same key in lists that include one another carry the same value. */
  lemma SubsequenceLookup<K, V>(a: seq<Entry<K, V>>, b: seq<Entry<K, V>>, k: K)
    requires Subsequence(a, b) && Distinct(b)
    ensures Lookup(a, k).Some? ==> Lookup(b, k) == Lookup(a, k)
  {
    if Lookup(a, k).Some? {
      SubsequenceMembers(a, b);
      LookupMembers(a, k);
      LookupMembers(b, k);
      var e, e' := Entry(k, Lookup(a, k).value), Entry(k, Lookup(b, k).value);
      assert e in b && e' in b;
      var i :| 0 <= i < |b| && b[i] == e;
      var j :| 0 <= j < |b| && b[j] == e';
      assert i == j;
    }
  }

  lemma PushDistinct<K, V>(xs: seq<Entry<K, V>>, e: Entry<K, V>)
    requires Distinct(xs)
    ensures Distinct([e] + Without(xs, e.key))
  {
    WithoutMembers(xs, e.key);
    var ys := Without(xs, e.key);
    forall j | 0 <= j < |ys| ensures ys[j].key != e.key {
      assert ys[j] in ys;
    }
  }

  lemma PushSubsequence<T>(x: T, a: seq<T>, b: seq<T>)
    requires Subsequence(a, b)
    ensures Subsequence([x] + a, [x] + b) && Subsequence(a, [x] + b)
  {
    assert ([x] + a)[1..] == a && ([x] + b)[1..] == b;
  }

  /** Taking a key out of both lists. The larger list may lose an entry that the smaller does not have. */
  lemma WithoutIncluded<K, V>(a: seq<Entry<K, V>>, b: seq<Entry<K, V>>, k: K, n: nat, m: nat)
    requires Included(a, b, n, m)
    ensures Included(Without(a, k), Without(b, k), n, m)
    ensures |Without(a, k)| == |a| - if Lookup(a, k).Some? then 1 else 0
    ensures |Without(b, k)| == |b| - if Lookup(b, k).Some? then 1 else 0
    ensures Lookup(a, k).Some? ==> Lookup(b, k) == Lookup(a, k)
  {
    WithoutMembers(a, k);
    WithoutMembers(b, k);
    LookupMembers(a, k);
    LookupMembers(b, k);
    SubsequenceLookup(a, b, k);
    SubsequenceWithout(a, b, k);
  }

  /** Putting an entry in front of both lists, whose key they did not have. */
  lemma PushSame<K, V>(a: seq<Entry<K, V>>, b: seq<Entry<K, V>>, e: Entry<K, V>)
    requires Distinct(a) && Distinct(b) && Subsequence(Without(a, e.key), Without(b, e.key))
    ensures var a', b' := [e] + Without(a, e.key), [e] + Without(b, e.key);
            Distinct(a') && Distinct(b') && Subsequence(a', b')
  {
    PushDistinct(a, e);
    PushDistinct(b, e);
    PushSubsequence(e, Without(a, e.key), Without(b, e.key));
  }

  lemma PutKeepsInclusion<K, V>(a: seq<Entry<K, V>>, b: seq<Entry<K, V>>, e: Entry<K, V>, n: nat, m: nat)
    requires 1 <= n <= m && Included(a, b, n, m)
    ensures Included(Truncate([e] + Without(a, e.key), n), Truncate([e] + Without(b, e.key), m), n, m)
  {
    WithoutIncluded(a, b, e.key, n, m);
    PushSame(a, b, e);
    SubsequenceDropLast([e] + Without(a, e.key), [e] + Without(b, e.key));
  }

  lemma GetKeepsInclusion<K, V>(a: seq<Entry<K, V>>, b: seq<Entry<K, V>>, k: K, n: nat, m: nat)
    requires 1 <= n <= m && Included(a, b, n, m) && Lookup(b, k).Some?
    ensures Included(Step(a, Get(k), n), Step(b, Get(k), m), n, m)
  {
    var e := Entry(k, Lookup(b, k).value);
    WithoutIncluded(a, b, k, n, m);
    PushSame(a, b, e);
    if Lookup(a, k).None? {
      LookupMembers(a, k);
      PushSubsequence(e, a, Without(b, k));
    }
  }

  lemma {:induction false} StepKeepsInclusion<K, V>(a: seq<Entry<K, V>>, b: seq<Entry<K, V>>, op: Op<K, V>, n: nat, m: nat)
    requires 1 <= n <= m && Included(a, b, n, m)
    ensures Included(Step(a, op, n), Step(b, op, m), n, m)
  {
    match op
    case Put(k, v) =>
      PutKeepsInclusion(a, b, Entry(k, v), n, m);
    case Get(k) =>
      WithoutIncluded(a, b, k, n, m);
      if Lookup(b, k).Some? {
        GetKeepsInclusion(a, b, k, n, m);
      }
    case Remove(k) =>
      WithoutIncluded(a, b, k, n, m);
    case Clear =>
  }

  lemma {:induction false} RunKeepsInclusion<K, V>(ops: seq<Op<K, V>>, n: nat, m: nat)
    requires 1 <= n <= m
    ensures Included(Run(ops, n), Run(ops, m), n, m)
  {
    if ops != [] {
      RunKeepsInclusion(ops[..|ops| - 1], n, m);
      StepKeepsInclusion(Run(ops[..|ops| - 1], n), Run(ops[..|ops| - 1], m), ops[|ops| - 1], n, m);
    }
  }

  /** LRU inclusion: after any run, whatever the small cache finds the large one finds too, with
      the same value; and both never exceed their capacities. */
  lemma {:induction false} LruInclusion<K, V>(ops: seq<Op<K, V>>, n: nat, m: nat, k: K)
    requires 1 <= n <= m
    ensures var a, b := Run(ops, n), Run(ops, m);
            && Subsequence(a, b) && |a| <= n && |b| <= m
            && (Lookup(a, k).Some? ==> Lookup(b, k) == Lookup(a, k))
  {
    RunKeepsInclusion(ops, n, m);
    SubsequenceLookup(Run(ops, n), Run(ops, m), k);
  }
}
