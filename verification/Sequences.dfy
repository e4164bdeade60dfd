/** Facts about sequences and maps that several components need. */
module Sequences {

  function EraseAt<T>(xs: seq<T>, p: nat): (ys: seq<T>)
    requires p < |xs|
    ensures |ys| == |xs| - 1
    ensures forall i :: 0 <= i < |ys| ==> ys[i] == xs[if i < p then i else i + 1]
  {
    xs[..p] + xs[p + 1..]
  }

  function InsertAt<T>(xs: seq<T>, p: nat, x: T): (ys: seq<T>)
    requires p <= |xs|
    ensures |ys| == |xs| + 1
    ensures forall i :: 0 <= i < |ys| ==> ys[i] == if i < p then xs[i] else if i == p then x else xs[i - 1]
  {
    xs[..p] + [x] + xs[p..]
  }

  /** The first position of x, or the length. */
  function IndexOf<T(==)>(xs: seq<T>, x: T): (i: nat)
    ensures i <= |xs| && (i < |xs| ==> xs[i] == x)
    ensures forall j :: 0 <= j < i ==> xs[j] != x
  {
    if xs == [] || xs[0] == x then 0 else 1 + IndexOf(xs[1..], x)
  }

  /** An element of a list or multimap with its identity: an iterator to it holds the id, and stays
      usable while other elements come and go. */
  datatype Node<T> = Node(id: nat, item: T)

  /** Where the node an iterator points to stands, or the length if there is none. */
  function PositionOf<T>(nodes: seq<Node<T>>, id: nat): (p: nat)
    ensures p <= |nodes| && (p < |nodes| ==> nodes[p].id == id)
    ensures forall i :: 0 <= i < p ==> nodes[i].id != id
  {
    if nodes == [] || nodes[0].id == id then 0 else 1 + PositionOf(nodes[1..], id)
  }

  /** Inserting and erasing at different places can be done in either order. */
  lemma InsertThenEraseAt<T>(xs: seq<T>, u: nat, x: T, p: nat)
    requires u <= |xs| && p < |xs|
    ensures EraseAt(InsertAt(xs, u, x), if p < u then p else p + 1) ==
            InsertAt(EraseAt(xs, p), if p < u then u - 1 else u, x)
  {
  }

  ghost predicate DistinctSeq<T>(xs: seq<T>) {
    forall i, j :: 0 <= i < j < |xs| ==> xs[i] != xs[j]
  }

  lemma {:induction false} DistinctSize<T>(xs: seq<T>, s: set<T>)
    requires DistinctSeq(xs) && forall x :: x in s <==> x in xs
    ensures |s| == |xs|
  {
    if xs == [] {
      assert s == {};
    } else {
      var n := |xs| - 1;
      assert xs == xs[..n] + [xs[n]];
      assert forall x :: x in xs[..n] ==> x != xs[n];
      DistinctSize(xs[..n], s - {xs[n]});
    }
  }

  lemma DropAbsent<K, V>(m: map<K, V>, k: K)
    requires k !in m
    ensures m - {k} == m
  {
  }

  lemma AssignSame<K, V>(m: map<K, V>, k: K)
    requires k in m
    ensures m[k := m[k]] == m
  {
  }

  lemma DropAssign<K, V>(m: map<K, V>, k: K, v: V)
    ensures (m - {k})[k := v] == m[k := v]
  {
  }

  lemma DropOneMore<K, V>(m: map<K, V>, s: set<K>, k: K)
    ensures m - s - {k} == m - (s + {k})
  {
  }

  /** The keys of a map, collected one by one. */
  method CopyKeys<K(==), V>(m: map<K, V>) returns (result: set<K>)
    ensures result == m.Keys
  {
    result := {};
    var left := m.Keys;
    while left != {}
      invariant result + left == m.Keys
      decreases |left|
    {
      var k :| k in left;
      left := left - {k};
      result := result + {k};
    }
  }
}
