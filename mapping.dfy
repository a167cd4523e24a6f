/**
 * The hash map of `mapping.py`: a fixed array of `size` buckets, each the
 * head of a singly linked chain of `HashNode` objects, new nodes prepended.
 *
 * The ghost fields give the abstract view: `Nodes[i]` lists the nodes of
 * bucket `i` from head to tail, `Chains[i]` their (key, value) pairs,
 * `Contents` the map they represent and `Repr` the objects the map owns.
 * The raw key hash (Python's builtin `hash`) is the constructor parameter
 * `hash`; the proofs use nothing about it beyond its being a function of the key.
 */
module Mapping {
  import opened Chaining
  import opened Render

  /** One entry of a chain: key, value and the link to the next entry. */
  class HashNode<K, V> {
    var key: K
    var value: V
    var next: HashNode?<K, V>

    constructor (key: K, value: V)
      ensures this.key == key && this.value == value && next == null
    {
      this.key := key;
      this.value := value;
      next := null;
    }
  }

  class HashMap<K(==), V> {
    const size: Pos
    const hash: K -> int
    const buckets: array<HashNode?<K, V>>

    ghost var Nodes: seq<seq<HashNode<K, V>>>
    ghost var Chains: seq<Chain<K, V>>
    ghost var Contents: map<K, V>
    ghost var Repr: set<object>

    /**
     * The heap shape: the sizes agree; bucket slot `i` holds the head of
     * `Nodes[i]`; every node is owned by the map and carries the entry at its
     * position in `Chains`; and each node links to the next node of its
     * bucket, the last one to null.  Since no key appears twice in the table,
     * no node appears at two positions either (NodeOnlyAt).
     */
    ghost predicate Linked()
      reads this, Repr
    {
      this in Repr && buckets in Repr &&
      buckets.Length == size && |Nodes| == size && |Chains| == size &&
      (forall i | 0 <= i < size ::
         |Nodes[i]| == |Chains[i]| &&
         buckets[i] == if Nodes[i] == [] then null else Nodes[i][0]) &&
      (forall i, j | 0 <= i < size && 0 <= j < |Nodes[i]| ::
         Nodes[i][j] in Repr &&
         Nodes[i][j].key == Chains[i][j].0 && Nodes[i][j].value == Chains[i][j].1) &&
      (forall i, j {:trigger Nodes[i][j].next} | 0 <= i < size && 0 <= j < |Nodes[i]| ::
         Nodes[i][j].next == if j + 1 < |Nodes[i]| then Nodes[i][j + 1] else null)
    }

    /** The object invariant: the heap shape, and the table invariants of Chaining.Consistent. */
    ghost predicate Valid()
      reads this, Repr
    {
      Linked() && Consistent(Chains, hash, size, Contents)
    }

    /** The node at position `j` of bucket `i` is at no other position of the table. */
    ghost predicate OnlyAt(i: int, j: int)
      reads this
      requires 0 <= i < |Nodes| && 0 <= j < |Nodes[i]|
    {
      forall i', j' | 0 <= i' < |Nodes| && 0 <= j' < |Nodes[i']| && Nodes[i'][j'] == Nodes[i][j] ::
        i' == i && j' == j
    }

    /** Since no key appears twice in the table, no node appears at two positions either. */
    lemma NodeOnlyAt(i: int, j: int)
      requires Valid()
      requires 0 <= i < size && 0 <= j < |Nodes[i]|
      ensures OnlyAt(i, j)
    {
      forall i', j' | 0 <= i' < |Nodes| && 0 <= j' < |Nodes[i']| && Nodes[i'][j'] == Nodes[i][j]
        ensures i' == i && j' == j
      {
        GloballyUnique(Chains, hash, size, Contents, i, j, i', j');
      }
    }

    /** `__init__`: `size` empty buckets. */
    constructor (hash: K -> int, size: Pos := 10)
      ensures Valid() && fresh(Repr)
      ensures this.hash == hash && this.size == size
      ensures Contents == map[] && Chains == seq(size, _ => [])
    {
      this.size := size;
      this.hash := hash;
      buckets := new HashNode?<K, V>[size](_ => null);
      Nodes := seq(size, _ => []);
      Chains := seq(size, _ => []);
      Contents := map[];
      new;
      Repr := {this, buckets};
      EmptyConsistent<K, V>(hash, size);
    }

    /** `_hash`: the bucket index of `key`, always in `[0, size)`. */
    function Hash(key: K): (index: nat)
      ensures index < size
    {
      FloorMod(hash(key), size)
    }

    /**
     * `put`: insert or update.  A key already present keeps its node, whose
     * value is overwritten; a new key gets a fresh node at the head of its
     * bucket, followed by the old chain.  No other bucket changes.
     */
    method Put(key: K, value: V)
      requires Valid()
      modifies Repr
      ensures Valid() && fresh(Repr - old(Repr))
      ensures Contents == old(Contents)[key := value]
      ensures Chains == old(Chains)[Hash(key) := ChainPut(old(Chains)[Hash(key)], key, value)]
      ensures key in old(Contents) ==> Nodes == old(Nodes)
      ensures key !in old(Contents) ==>
                Nodes[Hash(key)] != [] && fresh(Nodes[Hash(key)][0]) &&
                Nodes == old(Nodes)[Hash(key) := [Nodes[Hash(key)][0]] + old(Nodes)[Hash(key)]]
    {
      var index := Hash(key);
      var current, j := FindNode(key);
      ghost var chains, contents := Chains, Contents;
      PutConsistent(chains, hash, size, contents, key, value);
      if current != null {
        NodeOnlyAt(index, j);
        Placed(chains, hash, size, contents, index, j);
        PutExisting(chains[index], key, value, j);
        SetValue(current, index, j, value);
      } else {
        LookupAbsent(chains[index], key);
        TableLookup(chains, hash, size, contents, key);
        PutNew(chains[index], key, value);
        Prepend(key, value);
      }
    }

    /** The search loop of `put`: the first node of `key`'s bucket holding `key`, or null. */
    method FindNode(key: K) returns (current: HashNode?<K, V>, ghost j: nat)
      requires Linked()
      ensures j <= |Nodes[Hash(key)]|
      ensures current == if j < |Nodes[Hash(key)]| then Nodes[Hash(key)][j] else null
      ensures current != null ==> current.key == key && FirstMatch(Chains[Hash(key)], key, j)
      ensures current == null ==> forall t | 0 <= t < |Chains[Hash(key)]| :: Chains[Hash(key)][t].0 != key
    {
      var index := Hash(key);
      current := buckets[index];
      j := 0;
      while current != null
        invariant 0 <= j <= |Nodes[index]|
        invariant current == if j < |Nodes[index]| then Nodes[index][j] else null
        invariant forall t | 0 <= t < j :: Chains[index][t].0 != key
        decreases |Nodes[index]| - j
      {
        if current.key == key {
          return;
        }
        assert current.key == Chains[index][j].0;
        current := current.next;
        j := j + 1;
      }
    }

    /** The update branch of `put`: the node at position `j` of bucket `index` gets `value`. */
    method SetValue(node: HashNode<K, V>, ghost index: nat, ghost j: nat, value: V)
      requires Linked()
      requires index < size && j < |Nodes[index]| && Nodes[index][j] == node
      requires OnlyAt(index, j)
      modifies this, node
      ensures Linked()
      ensures Chains == old(Chains)[index := old(Chains)[index][j := (old(Chains)[index][j].0, value)]]
      ensures Contents == old(Contents)[old(Chains)[index][j].0 := value]
      ensures Nodes == old(Nodes) && Repr == old(Repr)
    {
      node.value := value;
      Chains, Contents := Chains[index := Chains[index][j := (node.key, value)]], Contents[node.key := value];
    }

    /** The insert branch of `put`: a fresh node for `(key, value)` becomes the head of its bucket. */
    method Prepend(key: K, value: V)
      requires Linked()
      modifies this, buckets
      ensures Linked()
      ensures Nodes[Hash(key)] != [] && fresh(Nodes[Hash(key)][0])
      ensures Nodes == old(Nodes)[Hash(key) := [Nodes[Hash(key)][0]] + old(Nodes)[Hash(key)]]
      ensures Chains == old(Chains)[Hash(key) := [(key, value)] + old(Chains)[Hash(key)]]
      ensures Repr == old(Repr) + {Nodes[Hash(key)][0]} && Contents == old(Contents)[key := value]
    {
      var index := Hash(key);
      var newNode := new HashNode(key, value);
      newNode.next := buckets[index];
      Push(newNode, index);
    }

    /** The last step of the insert branch: `node`, already pointing at the old head, becomes the head. */
    method Push(node: HashNode<K, V>, index: nat)
      requires Linked()
      requires index < size && node !in Repr && node.next == buckets[index]
      modifies this, buckets
      ensures Linked()
      ensures Nodes == old(Nodes)[index := [node] + old(Nodes)[index]]
      ensures Chains == old(Chains)[index := [(node.key, node.value)] + old(Chains)[index]]
      ensures Repr == old(Repr) + {node} && Contents == old(Contents)[node.key := node.value]
    {
      ghost var before := Nodes;
      buckets[index] := node;
      Nodes, Chains, Contents, Repr :=
        Nodes[index := [node] + Nodes[index]], Chains[index := [(node.key, node.value)] + Chains[index]],
        Contents[node.key := node.value], Repr + {node};
      // every node but the new head is an old one, one place further down in bucket `index`
      forall i, t | 0 <= i < size && 0 <= t < |Nodes[i]|
        ensures Nodes[i][t] in Repr && Nodes[i][t].key == Chains[i][t].0 && Nodes[i][t].value == Chains[i][t].1
      {
        if i != index || t != 0 {
          var o := if i == index then t - 1 else t;
          assert Nodes[i][t] == before[i][o];
        }
      }
      forall i, t | 0 <= i < size && 0 <= t < |Nodes[i]|
        ensures Nodes[i][t].next == if t + 1 < |Nodes[i]| then Nodes[i][t + 1] else null
      {
        if i != index || t != 0 {
          var o := if i == index then t - 1 else t;
          assert Nodes[i][t] == before[i][o];
        }
      }
    }

    /** `get`: the value stored under `key`, or `None`; nothing changes. */
    method Get(key: K) returns (r: Option<V>)
      requires Valid()
      ensures r == if key in Contents then Some(Contents[key]) else None
      ensures r == Lookup(Chains[Hash(key)], key)
    {
      var index := Hash(key);
      var head := buckets[index];
      var current := head;
      ghost var j := 0;
      while current != null
        invariant 0 <= j <= |Nodes[index]|
        invariant current == if j < |Nodes[index]| then Nodes[index][j] else null
        invariant Lookup(Chains[index][j..], key) == Lookup(Chains[index], key)
        decreases |Nodes[index]| - j
      {
        if current.key == key {
          TableLookup(Chains, hash, size, Contents, key);
          return Some(current.value);
        }
        assert Chains[index][j..][1..] == Chains[index][j + 1..];
        current := current.next;
        j := j + 1;
      }
      TableLookup(Chains, hash, size, Contents, key);
      return None;
    }

    /**
     * `remove`: unlink the node holding `key`, from the bucket slot when it
     * is the head and by bypassing it from its predecessor otherwise.  The
     * result says whether `key` was present.  The other nodes of the chain
     * keep their order, and no other bucket changes.
     */
    method Remove(key: K) returns (removed: bool)
      requires Valid()
      modifies Repr
      ensures Valid() && Repr <= old(Repr)
      ensures removed == (key in old(Contents))
      ensures Contents == old(Contents) - {key}
      ensures Chains == old(Chains)[Hash(key) := ChainRemove(old(Chains)[Hash(key)], key)]
      ensures !removed ==> Nodes == old(Nodes)
      ensures removed ==>
                exists j | 0 <= j < |old(Nodes)[Hash(key)]| ::
                  Nodes == old(Nodes)[Hash(key) := old(Nodes)[Hash(key)][..j] + old(Nodes)[Hash(key)][j + 1..]]
    {
      var index := Hash(key);
      var prev, current, j := FindLink(key);
      ghost var before, chains, contents := Nodes, Chains, Contents;
      RemoveConsistent(chains, hash, size, contents, key);
      if current == null {
        RemoveMissing(chains[index], key);
        LookupAbsent(chains[index], key);
        TableLookup(chains, hash, size, contents, key);
        assert Contents - {key} == Contents;
        return false;
      }
      NodeOnlyAt(index, j);
      Placed(chains, hash, size, contents, index, j);
      RemoveAt(chains[index], key, j);
      if prev == null {
        assert before[index][..j] + before[index][j + 1..] == before[index][1..];
        UnlinkHead(current, index);
      } else {
        NodeOnlyAt(index, j - 1);
        UnlinkAfter(prev, current, index, j);
      }
      return true;
    }

    /** The search loop of `remove`: the first node holding `key`, or null, and its predecessor. */
    method FindLink(key: K) returns (prev: HashNode?<K, V>, current: HashNode?<K, V>, ghost j: nat)
      requires Linked()
      ensures j <= |Nodes[Hash(key)]|
      ensures current == if j < |Nodes[Hash(key)]| then Nodes[Hash(key)][j] else null
      ensures prev == if j == 0 then null else Nodes[Hash(key)][j - 1]
      ensures current != null ==> current.key == key && FirstMatch(Chains[Hash(key)], key, j)
      ensures current == null ==> forall t | 0 <= t < |Chains[Hash(key)]| :: Chains[Hash(key)][t].0 != key
    {
      var index := Hash(key);
      prev := null;
      current := buckets[index];
      j := 0;
      while current != null
        invariant 0 <= j <= |Nodes[index]|
        invariant current == if j < |Nodes[index]| then Nodes[index][j] else null
        invariant prev == if j == 0 then null else Nodes[index][j - 1]
        invariant forall t | 0 <= t < j :: Chains[index][t].0 != key
        decreases |Nodes[index]| - j
      {
        if current.key == key {
          return;
        }
        assert current.key == Chains[index][j].0;
        prev := current;
        current := current.next;
        j := j + 1;
      }
    }

    /** The unlinking step of `remove` for the head of bucket `index`: the bucket slot skips it. */
    method UnlinkHead(node: HashNode<K, V>, index: nat)
      requires Linked()
      requires index < size && |Nodes[index]| > 0 && Nodes[index][0] == node
      requires OnlyAt(index, 0)
      modifies this, buckets
      ensures Linked()
      ensures Nodes == old(Nodes)[index := old(Nodes)[index][1..]]
      ensures Chains == old(Chains)[index := old(Chains)[index][1..]]
      ensures Contents == old(Contents) - {old(Chains)[index][0].0}
      ensures Repr == old(Repr) - {node}
    {
      ghost var before := Nodes;
      buckets[index] := node.next;
      Nodes, Chains, Contents, Repr :=
        Nodes[index := Nodes[index][1..]], Chains[index := Chains[index][1..]],
        Contents - {Chains[index][0].0}, Repr - {node};
      forall i, t | 0 <= i < size && 0 <= t < |Nodes[i]|
        ensures Nodes[i][t] in Repr && Nodes[i][t].key == Chains[i][t].0 && Nodes[i][t].value == Chains[i][t].1
      {
        var o := if i == index then t + 1 else t;
        assert Nodes[i][t] == before[i][o] != node;
      }
      forall i, t | 0 <= i < size && 0 <= t < |Nodes[i]|
        ensures Nodes[i][t].next == if t + 1 < |Nodes[i]| then Nodes[i][t + 1] else null
      {
        var o := if i == index then t + 1 else t;
        assert Nodes[i][t] == before[i][o];
      }
    }

    /**
     * The unlinking step of `remove` for node `j > 0` of bucket `index`: its
     * predecessor `prev` skips it.
     */
    method UnlinkAfter(prev: HashNode<K, V>, node: HashNode<K, V>, index: nat, ghost j: nat)
      requires Linked()
      requires index < size && 0 < j < |Nodes[index]| && Nodes[index][j] == node
      requires prev == Nodes[index][j - 1]
      requires OnlyAt(index, j) && OnlyAt(index, j - 1)
      modifies this, prev
      ensures Linked()
      ensures Nodes == old(Nodes)[index := old(Nodes)[index][..j] + old(Nodes)[index][j + 1..]]
      ensures Chains == old(Chains)[index := old(Chains)[index][..j] + old(Chains)[index][j + 1..]]
      ensures Contents == old(Contents) - {old(Chains)[index][j].0}
      ensures Repr == old(Repr) - {node}
    {
      ghost var before := Nodes;
      prev.next := node.next;
      Nodes, Chains, Contents, Repr :=
        Nodes[index := Nodes[index][..j] + Nodes[index][j + 1..]],
        Chains[index := Chains[index][..j] + Chains[index][j + 1..]],
        Contents - {Chains[index][j].0}, Repr - {node};
      forall i, t | 0 <= i < size && 0 <= t < |Nodes[i]|
        ensures Nodes[i][t] in Repr && Nodes[i][t].key == Chains[i][t].0 && Nodes[i][t].value == Chains[i][t].1
      {
        var o := if i == index && t >= j then t + 1 else t;
        assert Nodes[i][t] == before[i][o] != node;
        assert Nodes[i][t].key == old(before[i][o].key) && Nodes[i][t].value == old(before[i][o].value);
      }
      forall i, t | 0 <= i < size && 0 <= t < |Nodes[i]|
        ensures Nodes[i][t].next == if t + 1 < |Nodes[i]| then Nodes[i][t + 1] else null
      {
        if i == index && t == j - 1 {
          assert Nodes[i][t] == prev;
        } else {
          var o := if i == index && t >= j then t + 1 else t;
          assert Nodes[i][t] == before[i][o];
          assert Nodes[i][t].next == old(before[i][o].next);
        }
      }
    }

    /** `__str__`: one line per bucket, in bucket order, joined by newlines. */
    method ToString(keyStr: K -> string, valStr: V -> string) returns (s: string)
      requires Linked()
      ensures s == Dump(Chains, keyStr, valStr)
    {
      var output: seq<string> := [];
      for i := 0 to buckets.Length
        invariant |output| == i
        invariant forall i' | 0 <= i' < i :: output[i'] == BucketLine(i', Chains[i'], keyStr, valStr)
      {
        var bucket := buckets[i];
        if bucket != null {
          var chain: seq<string> := [];
          var current := bucket;
          ghost var j := 0;
          while current != null
            invariant 0 <= j <= |Nodes[i]|
            invariant current == if j < |Nodes[i]| then Nodes[i][j] else null
            invariant |chain| == j
            invariant forall t | 0 <= t < j :: chain[t] == ItemText(Chains[i][t], keyStr, valStr)
            decreases |Nodes[i]| - j
          {
            chain := chain + [keyStr(current.key) + ": " + valStr(current.value)];
            current := current.next;
            j := j + 1;
          }
          assert chain == Items(Chains[i], keyStr, valStr);
          var line := "Bucket " + NatStr(i) + ": " + Join(chain, " -> ");
          assert line == BucketLine(i, Chains[i], keyStr, valStr);
          output := output + [line];
        } else {
          var line := "Bucket " + NatStr(i) + ": Empty";
          assert line == BucketLine(i, Chains[i], keyStr, valStr);
          output := output + [line];
        }
      }
      assert output == Lines(Chains, keyStr, valStr);
      s := Join(output, "\n");
    }
  }

  /**
   * What a caller can conclude from the contracts alone: a stored value is
   * found again, and a key can be removed once but not twice.
   */
  method PutGetRemove<K(==), V>(m: HashMap<K, V>, k: K, v: V)
    returns (found: Option<V>, first: bool, second: bool, after: Option<V>)
    requires m.Valid()
    modifies m.Repr
    ensures m.Valid()
    ensures found == Some(v) && first && !second && after == None
  {
    m.Put(k, v);
    found := m.Get(k);
    first := m.Remove(k);
    second := m.Remove(k);
    after := m.Get(k);
  }
}
