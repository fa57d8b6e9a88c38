/**
 The hash table of the post-processor: an array of buckets, each a list of nodes. A node remembers
 the bucket it belongs to, so that it can be removed without hashing its key again.
 */
module HTable {
  import opened TraceTypes
  import opened Ordering

  class HNode<K, V> {
    const key: K
    var value: V
    var bucket: int

    constructor (key: K, value: V)
      ensures this.key == key && this.value == value && bucket == -1
    {
      this.key := key;
      this.value := value;
      bucket := -1;
    }
  }

  class Table<K(==), V> {
    const buckets: array<seq<HNode<K, V>>>
    const hash: K -> nat
    /** The node stored under each key. */
    ghost var index: map<K, HNode<K, V>>
    ghost var repr: set<HNode<K, V>>

    function Slot(k: K): (b: nat)
      requires buckets.Length > 0
      ensures b < buckets.Length
    {
      if hash(k) >= buckets.Length then hash(k) % buckets.Length else hash(k)
    }

    /** Bucket `b` holds exactly the indexed nodes that hash to it, each once. */
    ghost predicate BucketValid(b: nat)
      requires b < buckets.Length
      reads this, buckets
    {
      && Distinct(buckets[b])
      && (forall i :: 0 <= i < |buckets[b]| ==>
            var n := buckets[b][i]; n.key in index && index[n.key] == n && Slot(n.key) == b)
      && (forall k :: k in index && Slot(k) == b ==> index[k] in buckets[b])
    }

    ghost predicate Valid()
      reads this, buckets, repr
    {
      && buckets.Length > 0
      && (forall b :: 0 <= b < buckets.Length ==> BucketValid(b))
      && (forall k :: k in index ==> index[k] in repr && index[k].key == k && index[k].bucket == Slot(k))
    }

    constructor (size: nat, hash: K -> nat)
      requires size > 0
      ensures Valid() && index == map[] && repr == {} && fresh(buckets)
    {
      this.hash := hash;
      buckets := new seq<HNode<K, V>>[size](_ => []);
      index := map[];
      repr := {};
    }

    /** Looks the key up in its bucket. */
    method Find(key: K) returns (r: Option<HNode<K, V>>)
      requires Valid()
      ensures r == if key in index then Some(index[key]) else None
    {
      var bucket := buckets[Slot(key)];
      assert BucketValid(Slot(key));
      var i := 0;
      while i < |bucket| && bucket[i].key != key
        invariant i <= |bucket|
        invariant forall j :: 0 <= j < i ==> bucket[j].key != key
      {
        i := i + 1;
      }
      r := if i < |bucket| then Some(bucket[i]) else None;
    }

    /** Takes a stored node out of the bucket it remembers. */
    method RemoveNode(node: HNode<K, V>)
      requires Valid() && node.key in index && index[node.key] == node
      modifies this, buckets
      ensures Valid() && index == old(index) - {node.key} && repr == old(repr)
    {
      var b := node.bucket;
      assert BucketValid(b);
      var k :| 0 <= k < |buckets[b]| && buckets[b][k] == node;
      RemoveAt(b, k);
    }

    method RemoveAt(b: nat, k: nat)
      requires Valid() && b < buckets.Length && k < |buckets[b]|
      modifies this, buckets
      ensures Valid() && index == old(index) - {old(buckets[b][k]).key} && repr == old(repr)
    {
      var before := buckets[b];
      ghost var key := before[k].key;
      assert BucketValid(b);
      index := index - {key};
      buckets[b] := before[..k] + before[k + 1..];
      forall c | 0 <= c < buckets.Length ensures BucketValid(c) {
        assert old(BucketValid(c));
      }
    }

    /** Appends a node under a key that is not in use. */
    method Append(node: HNode<K, V>)
      requires Valid() && node.key !in index
      modifies this, buckets, node`bucket
      ensures Valid() && index == old(index)[node.key := node] && repr == old(repr) + {node}
    {
      var b := Slot(node.key);
      node.bucket := b;
      buckets[b] := buckets[b] + [node];
      index := index[node.key := node];
      repr := repr + {node};
      forall c | 0 <= c < buckets.Length ensures BucketValid(c) {
        assert old(BucketValid(c));
      }
    }

    /** Stores a node; a node with the same key is replaced and returned. */
    method Store(node: HNode<K, V>) returns (replaced: Option<HNode<K, V>>)
      requires Valid() && node !in repr
      modifies this, buckets, node`bucket
      ensures Valid() && index == old(index)[node.key := node] && repr == old(repr) + {node}
      ensures replaced == if node.key in old(index) then Some(old(index)[node.key]) else None
    {
      replaced := Find(node.key);
      if replaced.Some? {
        RemoveNode(replaced.value);
      }
      Append(node);
      assert index == old(index)[node.key := node];
    }
  }
}
