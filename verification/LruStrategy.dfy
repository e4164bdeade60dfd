/** Poco/LRUStrategy.h: a recency list and an index of iterators into it, updated in place. */
module LruStrategies {
  import opened Outcomes
  import opened Sequences

  function WithoutKey<K(==)>(ks: seq<K>, k: K): seq<K> {
    if ks == [] then [] else if ks[0] == k then WithoutKey(ks[1..], k) else [ks[0]] + WithoutKey(ks[1..], k)
  }

  /** List and index agree: they hold the same keys, each once, and every stored iterator points
      to the node of its key. The keys in list order are `order`. */
  ghost predicate Agree<K(!new)>(nodes: seq<Node<K>>, index: map<K, nat>, nextId: nat, order: seq<K>) {
    && |order| == |nodes|
    && (forall i :: 0 <= i < |nodes| ==> nodes[i].item == order[i] && nodes[i].id < nextId)
    && (forall i :: 0 <= i < |nodes| ==> order[i] in index && index[order[i]] == nodes[i].id)
    && (forall i, j :: 0 <= i < j < |nodes| ==> nodes[i].id != nodes[j].id)
    && (forall k :: k in index ==> k in order)
  }

  /** The elements of a list from position n on. */
  function Beyond<T>(xs: seq<T>, n: nat): set<T>
    requires n <= |xs|
  {
    set x | x in xs[n..]
  }

  lemma BeyondStep<T>(xs: seq<T>, n: nat)
    requires n < |xs|
    ensures Beyond(xs, n) == Beyond(xs, n + 1) + {xs[n]}
  {
    assert xs[n..] == [xs[n]] + xs[n + 1..];
  }

  lemma AgreeDistinct<K(!new)>(nodes: seq<Node<K>>, index: map<K, nat>, nextId: nat, order: seq<K>)
    requires Agree(nodes, index, nextId, order)
    ensures DistinctSeq(order)
    ensures forall k :: k in index <==> k in order
  {
    forall i, j | 0 <= i < j < |order| ensures order[i] != order[j] {
      assert nodes[i].id != nodes[j].id;
    }
  }

  /** The index has as many keys as the list has nodes. */
  lemma {:induction false} AgreeSize<K(!new)>(nodes: seq<Node<K>>, index: map<K, nat>, nextId: nat, order: seq<K>)
    requires Agree(nodes, index, nextId, order)
    ensures |index| == |nodes|
  {
    AgreeDistinct(nodes, index, nextId, order);
    DistinctSize(order, index.Keys);
  }

  /** onAdd keeps list and index in agreement exactly when the key is new to the strategy: for a
      known key the index is redirected but the old node stays behind in the list. */
  lemma {:induction false} AddAgrees<K(!new)>(nodes: seq<Node<K>>, index: map<K, nat>, nextId: nat, order: seq<K>, k: K)
    requires Agree(nodes, index, nextId, order)
    ensures Agree([Node(nextId, k)] + nodes, index[k := nextId], nextId + 1, [k] + order) <==> k !in index
  {
    var nodes', index', order' := [Node(nextId, k)] + nodes, index[k := nextId], [k] + order;
    if k in index {
      var i :| 0 <= i < |order| && order[i] == k;
      assert nodes'[i + 1].id < nextId && order'[i + 1] == k;
    } else {
      forall l | l in index' ensures l in order' {
        if l == k {
          assert order'[0] == k;
        } else {
          assert l in order;
        }
      }
    }
  }

  lemma {:induction false} WithoutKeyAt<K>(ks: seq<K>, p: nat)
    requires p < |ks| && DistinctSeq(ks)
    ensures WithoutKey(ks, ks[p]) == ks[..p] + ks[p + 1..]
  {
    if p == 0 {
      WithoutKeyAbsent(ks[1..], ks[0]);
    } else {
      WithoutKeyAt(ks[1..], p - 1);
      assert ks[1..][p - 1] == ks[p] && ks[1..][..p - 1] == ks[1..p] && ks[1..][p..] == ks[p + 1..];
      assert [ks[0]] + (ks[1..p] + ks[p + 1..]) == ks[..p] + ks[p + 1..];
    }
  }

  lemma {:induction false} WithoutKeyAbsent<K>(ks: seq<K>, k: K)
    requires k !in ks
    ensures WithoutKey(ks, k) == ks
  {
    if ks != [] {
      WithoutKeyAbsent(ks[1..], k);
    }
  }

  /** Erasing a node and its index entry. */
  lemma EraseAgrees<K(!new)>(nodes: seq<Node<K>>, index: map<K, nat>, nextId: nat, order: seq<K>, p: nat)
    requires Agree(nodes, index, nextId, order) && p < |nodes|
    ensures Agree(EraseAt(nodes, p), index - {order[p]}, nextId, EraseAt(order, p))
  {
    AgreeDistinct(nodes, index, nextId, order);
    var nodes', order', index' := EraseAt(nodes, p), EraseAt(order, p), index - {order[p]};
    forall i, j | 0 <= i < j < |nodes'| ensures nodes'[i].id != nodes'[j].id {
      var i0, j0 := if i < p then i else i + 1, if j < p then j else j + 1;
      assert nodes'[i] == nodes[i0] && nodes'[j] == nodes[j0];
    }
    forall k | k in index' ensures k in order' {
      var i :| 0 <= i < |order| && order[i] == k;
      assert order'[if i < p then i else i - 1] == k;
    }
  }

  lemma PushAgrees<K(!new)>(nodes: seq<Node<K>>, index: map<K, nat>, nextId: nat, order: seq<K>, n: Node<K>)
    requires Agree(nodes, index, nextId, order) && n.item !in index && n.id < nextId
    requires forall i :: 0 <= i < |nodes| ==> nodes[i].id != n.id
    ensures Agree([n] + nodes, index[n.item := n.id], nextId, [n.item] + order)
  {
    var order' := [n.item] + order;
    forall k | k in index[n.item := n.id] ensures k in order' {
      if k == n.item {
        assert order'[0] == k;
      } else {
        assert k in order;
      }
    }
  }

  /** Moving a node to the front: its iterator in the index stays right. */
  lemma SpliceAgrees<K(!new)>(nodes: seq<Node<K>>, index: map<K, nat>, nextId: nat, order: seq<K>, p: nat)
    requires Agree(nodes, index, nextId, order) && p < |nodes|
    ensures Agree([nodes[p]] + EraseAt(nodes, p), index, nextId, [order[p]] + EraseAt(order, p))
  {
    EraseAgrees(nodes, index, nextId, order, p);
    var rest, n := EraseAt(nodes, p), nodes[p];
    forall i | 0 <= i < |rest| ensures rest[i].id != n.id {
      assert rest[i] == nodes[if i < p then i else i + 1];
    }
    PushAgrees(rest, index - {n.item}, nextId, EraseAt(order, p), n);
    assert (index - {n.item})[n.item := n.id] == index;
  }

  /** The iterator stored for a key leads to the node of that key. */
  lemma IndexLeadsToKey<K(!new)>(nodes: seq<Node<K>>, index: map<K, nat>, nextId: nat, order: seq<K>, k: K)
    requires Agree(nodes, index, nextId, order) && k in index
    ensures PositionOf(nodes, index[k]) < |nodes|
    ensures var p := PositionOf(nodes, index[k]); order[p] == k && WithoutKey(order, k) == EraseAt(order, p)
  {
    AgreeDistinct(nodes, index, nextId, order);
    var i :| 0 <= i < |order| && order[i] == k;
    assert nodes[i].id == index[k];
    assert PositionOf(nodes, index[k]) == i;
    WithoutKeyAt(order, i);
  }

  /** What onGet does to a key it knows. */
  lemma GetAgrees<K(!new)>(nodes: seq<Node<K>>, index: map<K, nat>, nextId: nat, order: seq<K>, k: K)
    requires Agree(nodes, index, nextId, order) && k in index
    ensures PositionOf(nodes, index[k]) < |nodes|
    ensures var p := PositionOf(nodes, index[k]);
            && index[k := nodes[p].id] == index
            && Agree([nodes[p]] + EraseAt(nodes, p), index[k := nodes[p].id], nextId, [k] + WithoutKey(order, k))
  {
    IndexLeadsToKey(nodes, index, nextId, order, k);
    SpliceAgrees(nodes, index, nextId, order, PositionOf(nodes, index[k]));
    AssignSame(index, k);
  }

  class LruStrategy<K(==, !new)> {
    const size: nat
    var keys: seq<Node<K>>
    var keyIndex: map<K, nat>
    var nextId: nat
    /** The keys, most recently used first. */
    ghost var order: seq<K>

    ghost predicate Valid()
      reads this
    {
      1 <= size && Agree(keys, keyIndex, nextId, order)
    }

    constructor (size: nat)
      requires 1 <= size
      ensures Valid() && this.size == size && order == [] && keyIndex == map[]
    {
      this.size := size;
      keys, keyIndex, nextId := [], map[], 0;
      order := [];
    }

    /** Constructing a strategy for no keys at all is refused with an exception. */
    static method Create(size: nat) returns (r: Creation<LruStrategy<K>>)
      ensures r.Constructed? <==> 1 <= size
      ensures r.Constructed? ==> fresh(r.value) && r.value.Valid() && r.value.size == size && r.value.order == []
    {
      if size < 1 {
        return InvalidArgument;
      }
      var strategy := new LruStrategy(size);
      r := Constructed(strategy);
    }

    method OnAdd(key: K)
      modifies this
      ensures keys == [Node(old(nextId), key)] + old(keys) && nextId == old(nextId) + 1
      ensures keyIndex == old(keyIndex)[key := old(nextId)]
      ensures order == [key] + old(order)
      ensures old(Valid()) ==> (Valid() <==> key !in old(keyIndex))
    {
      if Valid() {
        AddAgrees(keys, keyIndex, nextId, order, key);
      }
      keys := [Node(nextId, key)] + keys;
      // inserts a new index entry, or redirects the one that is there
      keyIndex := keyIndex[key := nextId];
      nextId := nextId + 1;
      order := [key] + order;
    }

    method OnRemove(key: K)
      requires Valid()
      modifies this
      ensures Valid() && order == WithoutKey(old(order), key)
      ensures keyIndex == old(keyIndex) - {key}
    {
      if key in keyIndex {
        IndexLeadsToKey(keys, keyIndex, nextId, order, key);
        var p := PositionOf(keys, keyIndex[key]);
        EraseAgrees(keys, keyIndex, nextId, order, p);
        keys := EraseAt(keys, p);
        keyIndex := keyIndex - {key};
        order := EraseAt(order, p);
      } else {
        AgreeDistinct(keys, keyIndex, nextId, order);
        WithoutKeyAbsent(order, key);
        DropAbsent(keyIndex, key);
      }
    }

    method OnUpdate(key: K)
      requires Valid()
      modifies this
      ensures Valid() && order == [key] + WithoutKey(old(order), key)
      ensures keyIndex.Keys == old(keyIndex).Keys + {key}
    {
      OnRemove(key);
      OnAdd(key);
    }

    /** Moves the node at position p to the front and stores its iterator for the key. */
    method Splice(key: K, p: nat)
      requires p < |keys|
      modifies this
      ensures keys == [old(keys)[p]] + EraseAt(old(keys), p) && order == [key] + WithoutKey(old(order), key)
      ensures keyIndex == old(keyIndex)[key := old(keys)[p].id] && nextId == old(nextId)
    {
      keys := [keys[p]] + EraseAt(keys, p);
      keyIndex := keyIndex[key := keys[0].id];
      order := [key] + WithoutKey(order, key);
    }

    method OnGet(key: K)
      requires Valid()
      modifies this
      ensures Valid() && keyIndex == old(keyIndex)
      ensures order == if key in old(keyIndex) then [key] + WithoutKey(old(order), key) else old(order)
    {
      if key in keyIndex {
        GetAgrees(keys, keyIndex, nextId, order, key);
        Splice(key, PositionOf(keys, keyIndex[key]));
      }
    }

    method OnClear()
      requires Valid()
      modifies this
      ensures Valid() && order == [] && keyIndex == map[]
    {
      keys, keyIndex := [], map[];
      order := [];
    }

    method OnIsValid(key: K) returns (valid: bool)
      requires Valid()
      ensures valid <==> key in order
    {
      AgreeDistinct(keys, keyIndex, nextId, order);
      valid := key in keyIndex;
    }

    /** Adds to elems the keys the strategy wants removed: all beyond the first `size`. */
    method OnReplace(elems: set<K>) returns (elems': set<K>)
      requires Valid()
      ensures elems' == elems + if |order| <= size then {} else Beyond(order, size)
    {
      AgreeSize(keys, keyIndex, nextId, order);
      elems' := elems;
      var curSize := |keyIndex|;
      if curSize < size {
        return;
      }
      var diff := curSize - size;
      var it := |keys| - 1;
      var i := 0;
      while i < diff
        invariant 0 <= i <= diff && it == |keys| - 1 - i
        invariant elems' == elems + Beyond(order, |keys| - i)
      {
        BeyondStep(order, it);
        i := i + 1;
        elems' := elems' + {keys[it].item};
        if it != 0 {
          it := it - 1;
        }
      }
    }
  }
}
