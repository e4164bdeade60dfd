/** What an LRU cache holds after any run of operations, told from the operations: which key was used
    when, and what was put last. */
module RecencyRuns {
  import opened Outcomes
  import opened RecencyLists

  /** Operation t puts the key, or is a get that finds it. */
  ghost predicate Uses<K, V>(ops: seq<Op<K, V>>, n: nat, t: nat, k: K)
    requires t < |ops|
  {
    match ops[t]
    case Put(l, _) => l == k
    case Get(l) => l == k && HasKey(Run(ops[..t], n), k)
    case _ => false
  }

  /** One more than the number of the last operation that used the key, or zero. */
  ghost function LastUse<K, V>(ops: seq<Op<K, V>>, n: nat, k: K): (r: nat)
    ensures r <= |ops|
    ensures 0 < r ==> Uses(ops, n, r - 1, k)
    ensures forall t: nat :: r <= t < |ops| ==> !Uses(ops, n, t, k)
  {
    if ops == [] then 0
    else if Uses(ops, n, |ops| - 1, k) then |ops|
    else UsesBefore(ops, n, k); LastUse(ops[..|ops| - 1], n, k)
  }

  lemma UsesBefore<K, V>(ops: seq<Op<K, V>>, n: nat, k: K)
    requires ops != []
    ensures forall t: nat :: t < |ops| - 1 ==> (Uses(ops[..|ops| - 1], n, t, k) <==> Uses(ops, n, t, k))
  {
    forall t: nat | t < |ops| - 1 ensures Uses(ops[..|ops| - 1], n, t, k) <==> Uses(ops, n, t, k) {
      assert ops[..|ops| - 1][..t] == ops[..t];
    }
  }

  /** Most recently used first. */
  ghost predicate ByLastUse<K, V>(ops: seq<Op<K, V>>, n: nat, xs: seq<Entry<K, V>>) {
    && (forall i :: 0 <= i < |xs| ==> 0 < LastUse(ops, n, xs[i].key))
    && (forall i, j :: 0 <= i < j < |xs| ==> LastUse(ops, n, xs[j].key) < LastUse(ops, n, xs[i].key))
  }

  lemma LastUseNext<K, V>(ops: seq<Op<K, V>>, n: nat, op: Op<K, V>, k: K)
    ensures LastUse(ops + [op], n, k) ==
            if Uses(ops + [op], n, |ops|, k) then |ops| + 1 else LastUse(ops, n, k)
  {
    assert (ops + [op])[..|ops|] == ops;
  }

  lemma RunNext<K, V>(ops: seq<Op<K, V>>, n: nat, op: Op<K, V>)
    ensures Run(ops + [op], n) == Step(Run(ops, n), op, n)
  {
    assert (ops + [op])[..|ops|] == ops;
  }

  /** The entries but for some that were taken out, in their order, with nobody used in between. */
  lemma PartByLastUse<K, V>(ops: seq<Op<K, V>>, n: nat, op: Op<K, V>, xs: seq<Entry<K, V>>, ys: seq<Entry<K, V>>)
    requires ByLastUse(ops, n, xs)
    requires exists p: nat, q: nat :: p <= q <= |xs| && ys == xs[..p] + xs[q..]
    requires forall i :: 0 <= i < |ys| ==> !Uses(ops + [op], n, |ops|, ys[i].key)
    ensures ByLastUse(ops + [op], n, ys)
  {
    var p: nat, q: nat :| p <= q <= |xs| && ys == xs[..p] + xs[q..];
    forall i | 0 <= i < |ys| ensures LastUse(ops + [op], n, ys[i].key) == LastUse(ops, n, ys[i].key) {
      LastUseNext(ops, n, op, ys[i].key);
    }
    forall i | 0 <= i < |ys| ensures ys[i] == xs[if i < p then i else i + q - p] {
    }
  }

  lemma FrontByLastUse<K, V>(ops: seq<Op<K, V>>, n: nat, op: Op<K, V>, e: Entry<K, V>, ys: seq<Entry<K, V>>)
    requires ByLastUse(ops + [op], n, ys) && Uses(ops + [op], n, |ops|, e.key)
    requires forall i :: 0 <= i < |ys| ==> !Uses(ops + [op], n, |ops|, ys[i].key)
    ensures ByLastUse(ops + [op], n, [e] + ys)
  {
    LastUseNext(ops, n, op, e.key);
    forall i | 0 <= i < |ys| ensures LastUse(ops + [op], n, ys[i].key) <= |ops| {
      LastUseNext(ops, n, op, ys[i].key);
    }
  }

  lemma RunBounded<K, V>(ops: seq<Op<K, V>>, n: nat)
    requires 1 <= n
    ensures Distinct(Run(ops, n)) && |Run(ops, n)| <= n
  {
    RunKeepsInclusion(ops, n, n);
  }

  /** A list without the entries from place p to place q. */
  function Cut<K, V>(xs: seq<Entry<K, V>>, p: nat, q: nat): seq<Entry<K, V>>
    requires p <= q <= |xs|
  {
    xs[..p] + xs[q..]
  }

  lemma PutSplits<K, V>(xs: seq<Entry<K, V>>, ys: seq<Entry<K, V>>, e: Entry<K, V>, n: nat) returns (p: nat, q: nat)
    requires Distinct(xs) && PutInFront(xs, ys, e, n)
    ensures p <= q <= |xs| && ys == [e] + Cut(xs, p, q)
    ensures forall i :: 0 <= i < |Cut(xs, p, q)| ==> Cut(xs, p, q)[i].key != e.key
    ensures q == p || (q == p + 1 && (xs[p].key == e.key || (!HasKey(xs, e.key) && q == |xs| && n <= |xs|)))
  {
    if AddedInFront(xs, ys, e, n) {
      p, q := if |xs| < n || xs == [] then |xs| else |xs| - 1, |xs|;
      assert Cut(xs, |xs|, |xs|) == xs && (xs != [] ==> Cut(xs, |xs| - 1, |xs|) == xs[..|xs| - 1]);
    } else {
      p :| MovedToFront(xs, ys, p, e);
      q := p + 1;
      assert [e] + xs[..p] + xs[q..] == [e] + Cut(xs, p, q);
    }
  }

  lemma UsedLast<K, V>(ops: seq<Op<K, V>>, n: nat, op: Op<K, V>, k: K)
    ensures Uses(ops + [op], n, |ops|, k) <==>
            (op.Put? && op.key == k) || (op.Get? && op.key == k && HasKey(Run(ops, n), k))
  {
    assert (ops + [op])[..|ops|] == ops;
  }

  lemma PutByLastUse<K, V>(ops: seq<Op<K, V>>, n: nat, k: K, v: V)
    requires 1 <= n && ByLastUse(ops, n, Run(ops, n))
    ensures ByLastUse(ops + [Put(k, v)], n, Step(Run(ops, n), Put(k, v), n))
  {
    var xs, op := Run(ops, n), Put(k, v);
    RunBounded(ops, n);
    PutByPlace(xs, k, v, n);
    var p, q := PutSplits(xs, Step(xs, op, n), Entry(k, v), n);
    forall l ensures Uses(ops + [op], n, |ops|, l) <==> l == k {
      UsedLast(ops, n, op, l);
    }
    PartByLastUse(ops, n, op, xs, Cut(xs, p, q));
    FrontByLastUse(ops, n, op, Entry(k, v), Cut(xs, p, q));
  }

  lemma HitByLastUse<K, V>(ops: seq<Op<K, V>>, n: nat, k: K, p: nat)
    requires Distinct(Run(ops, n)) && ByLastUse(ops, n, Run(ops, n)) && p < |Run(ops, n)| && Run(ops, n)[p].key == k
    ensures var xs := Run(ops, n); ByLastUse(ops + [Op<K, V>.Get(k)], n, [xs[p]] + xs[..p] + xs[p + 1..])
  {
    var xs, op := Run(ops, n), Op<K, V>.Get(k);
    forall l ensures Uses(ops + [op], n, |ops|, l) <==> l == k {
      UsedLast(ops, n, op, l);
    }
    PartByLastUse(ops, n, op, xs, Cut(xs, p, p + 1));
    FrontByLastUse(ops, n, op, xs[p], Cut(xs, p, p + 1));
    assert [xs[p]] + xs[..p] + xs[p + 1..] == [xs[p]] + Cut(xs, p, p + 1);
  }

  lemma GetByLastUse<K, V>(ops: seq<Op<K, V>>, n: nat, k: K)
    requires 1 <= n && ByLastUse(ops, n, Run(ops, n))
    ensures ByLastUse(ops + [Op<K, V>.Get(k)], n, Step(Run(ops, n), Get(k), n))
  {
    var xs, op := Run(ops, n), Op<K, V>.Get(k);
    RunBounded(ops, n);
    var p := GetByPlace(xs, k, n);
    if p < |xs| {
      HitByLastUse(ops, n, k, p);
    } else {
      forall l ensures !Uses(ops + [op], n, |ops|, l) {
        UsedLast(ops, n, op, l);
      }
      assert xs == Cut(xs, p, p);
      PartByLastUse(ops, n, op, xs, xs);
    }
  }

  lemma RemoveByLastUse<K, V>(ops: seq<Op<K, V>>, n: nat, k: K)
    requires 1 <= n && ByLastUse(ops, n, Run(ops, n))
    ensures ByLastUse(ops + [Op<K, V>.Remove(k)], n, Step(Run(ops, n), Remove(k), n))
  {
    var xs, op := Run(ops, n), Op<K, V>.Remove(k);
    RunBounded(ops, n);
    RemoveByPlace(xs, k, n);
    assert xs == Cut(xs, |xs|, |xs|);
    if HasKey(xs, k) {
      var p: nat :| p < |xs| && xs[p].key == k && Step(xs, op, n) == xs[..p] + xs[p + 1..];
      assert Step(xs, op, n) == Cut(xs, p, p + 1);
    }
    PartByLastUse(ops, n, op, xs, Step(xs, op, n));
  }

  /** After any run the entries are sorted by the last operation that put or found their key, the latest
      first. */
  lemma {:induction false} RunByLastUse<K, V>(ops: seq<Op<K, V>>, n: nat)
    requires 1 <= n
    ensures ByLastUse(ops, n, Run(ops, n))
  {
    if ops != [] {
      var init, op := ops[..|ops| - 1], ops[|ops| - 1];
      assert ops == init + [op];
      RunByLastUse(init, n);
      match op
      case Put(k, v) => PutByLastUse(init, n, k, v);
      case Get(k) => GetByLastUse(init, n, k);
      case Remove(k) => RemoveByLastUse(init, n, k);
      case Clear =>
    }
  }

  // ---------------------------------------------------------------- what is held

  ghost predicate Concerns<K, V>(op: Op<K, V>, k: K) {
    op.Clear? || ((op.Put? || op.Remove?) && op.key == k)
  }

  /** Operation u needs room and drops key k, the one that was used longest ago. */
  ghost predicate Evicts<K, V>(ops: seq<Op<K, V>>, n: nat, u: nat, k: K)
    requires u < |ops|
  {
    var xs := Run(ops[..u], n);
    && ops[u].Put? && |xs| == n && !HasKey(xs, ops[u].key) && HasKey(xs, k)
    && forall i :: 0 <= i < |xs| && xs[i].key != k ==> LastUse(ops[..u], n, k) < LastUse(ops[..u], n, xs[i].key)
  }

  /** Operation t put the value, and since then the key was not put or removed again, the cache was not
      cleared, and the key was not dropped for being the one used longest ago. */
  ghost predicate Kept<K, V>(ops: seq<Op<K, V>>, n: nat, t: nat, e: Entry<K, V>) {
    && t < |ops| && ops[t] == Put(e.key, e.value)
    && forall u: nat :: t < u < |ops| ==> !Concerns(ops[u], e.key) && !Evicts(ops, n, u, e.key)
  }

  lemma EvictsBefore<K, V>(ops: seq<Op<K, V>>, n: nat, op: Op<K, V>, u: nat, k: K)
    requires u < |ops|
    ensures Evicts(ops + [op], n, u, k) <==> Evicts(ops, n, u, k)
  {
    assert (ops + [op])[..u] == ops[..u];
  }

  lemma KeptNext<K, V>(ops: seq<Op<K, V>>, n: nat, op: Op<K, V>, t: nat, e: Entry<K, V>)
    requires t < |ops|
    ensures Kept(ops + [op], n, t, e) <==>
            Kept(ops, n, t, e) && !Concerns(op, e.key) && !Evicts(ops + [op], n, |ops|, e.key)
  {
    var longer, last := ops + [op], |ops|;
    if Kept(longer, n, t, e) {
      forall u: nat | t < u < |ops| ensures !Concerns(ops[u], e.key) && !Evicts(ops, n, u, e.key) {
        assert longer[u] == ops[u];
        EvictsBefore(ops, n, op, u, e.key);
      }
      assert longer[last] == op;
    }
    if Kept(ops, n, t, e) && !Concerns(op, e.key) && !Evicts(longer, n, last, e.key) {
      forall u: nat | t < u < |longer| ensures !Concerns(longer[u], e.key) && !Evicts(longer, n, u, e.key) {
        if u < last {
          EvictsBefore(ops, n, op, u, e.key);
        }
      }
    }
  }

  lemma Oldest<K, V>(ops: seq<Op<K, V>>, n: nat, xs: seq<Entry<K, V>>, p: nat)
    requires Distinct(xs) && ByLastUse(ops, n, xs) && p < |xs|
    ensures (forall i :: 0 <= i < |xs| && xs[i].key != xs[p].key ==> LastUse(ops, n, xs[p].key) < LastUse(ops, n, xs[i].key))
            <==> p == |xs| - 1
  {
    var last := |xs| - 1;
    if p < last {
      assert LastUse(ops, n, xs[last].key) < LastUse(ops, n, xs[p].key);
    }
  }

  /** The key used longest ago is that of the last entry. */
  lemma EvictsLast<K, V>(ops: seq<Op<K, V>>, n: nat, op: Op<K, V>, e: Entry<K, V>)
    requires 1 <= n && e in Run(ops, n)
    ensures Evicts(ops + [op], n, |ops|, e.key) <==>
            var xs := Run(ops, n); op.Put? && |xs| == n && !HasKey(xs, op.key) && e == xs[n - 1]
  {
    var xs := Run(ops, n);
    RunBounded(ops, n);
    RunByLastUse(ops, n);
    assert (ops + [op])[..|ops|] == ops;
    var p: nat :| p < |xs| && xs[p] == e;
    Oldest(ops, n, xs, p);
  }

  lemma CutMembers<K, V>(xs: seq<Entry<K, V>>, p: nat, q: nat, e: Entry<K, V>)
    requires Distinct(xs) && p <= q <= |xs| && q <= p + 1
    ensures e in Cut(xs, p, q) <==> e in xs && !(q == p + 1 && e == xs[p])
  {
    var ys := Cut(xs, p, q);
    if e in ys {
      var j :| 0 <= j < |ys| && ys[j] == e;
      assert e == xs[if j < p then j else j + (q - p)];
    }
    if e in xs && !(q == p + 1 && e == xs[p]) {
      var i :| 0 <= i < |xs| && xs[i] == e;
      assert e == ys[if i < p then i else i - (q - p)];
    }
  }

  lemma PutHolds<K, V>(ops: seq<Op<K, V>>, n: nat, k: K, v: V, e: Entry<K, V>)
    requires 1 <= n
    ensures e in Step(Run(ops, n), Put(k, v), n) <==>
            e == Entry(k, v) ||
            (e in Run(ops, n) && e.key != k && !Evicts(ops + [Put(k, v)], n, |ops|, e.key))
  {
    var xs, op := Run(ops, n), Put(k, v);
    RunBounded(ops, n);
    PutByPlace(xs, k, v, n);
    var p, q := PutSplits(xs, Step(xs, op, n), Entry(k, v), n);
    CutMembers(xs, p, q, e);
    if e in xs {
      EvictsLast(ops, n, op, e);
      var i :| 0 <= i < |xs| && xs[i] == e;
      if e.key == k {
        assert HasKey(xs, k);
      }
    }
  }

  lemma OtherHolds<K, V>(ops: seq<Op<K, V>>, n: nat, op: Op<K, V>, e: Entry<K, V>)
    requires 1 <= n && !op.Put?
    ensures e in Step(Run(ops, n), op, n) <==> e in Run(ops, n) && !Concerns(op, e.key)
    ensures !Evicts(ops + [op], n, |ops|, e.key)
  {
    var xs := Run(ops, n);
    RunBounded(ops, n);
    match op
    case Get(k) =>
      var p := GetByPlace(xs, k, n);
      if p < |xs| {
        CutMembers(xs, p, p + 1, e);
        assert [xs[p]] + xs[..p] + xs[p + 1..] == [xs[p]] + Cut(xs, p, p + 1);
      }
    case Remove(k) =>
      RemoveByPlace(xs, k, n);
      if HasKey(xs, k) {
        var p: nat :| p < |xs| && xs[p].key == k && Step(xs, op, n) == xs[..p] + xs[p + 1..];
        CutMembers(xs, p, p + 1, e);
        assert Step(xs, op, n) == Cut(xs, p, p + 1);
      }
    case Clear =>
  }

  /** After any run an entry is held exactly if its value is the one put last under its key, and since
      then the key was neither removed nor dropped to make room, which only ever happens to the key
      that was used longest ago. */
  lemma {:induction false} RunHolds<K, V>(ops: seq<Op<K, V>>, n: nat, e: Entry<K, V>)
    requires 1 <= n
    ensures e in Run(ops, n) <==> exists t: nat :: Kept(ops, n, t, e)
  {
    if ops != [] {
      var init, op := ops[..|ops| - 1], ops[|ops| - 1];
      assert ops == init + [op];
      RunHolds(init, n, e);
      forall t: nat | t < |init| ensures Kept(ops, n, t, e) <==>
            Kept(init, n, t, e) && !Concerns(op, e.key) && !Evicts(ops, n, |init|, e.key) {
        KeptNext(init, n, op, t, e);
      }
      assert Kept(ops, n, |init|, e) <==> op == Put(e.key, e.value);
      if op.Put? {
        PutHolds(init, n, op.key, op.value, e);
      } else {
        OtherHolds(init, n, op, e);
      }
    }
  }
}
