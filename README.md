# A verified model of `mapping.py`'s chained hash map

`mapping.py` implements `HashMap`, a hash map with a fixed number of
buckets (10 by default) that resolves collisions by separate chaining.
Each bucket slot holds `None` or the head of a singly linked chain of
`HashNode` objects (`key`, `value`, `next`).

- `_hash` reduces Python's builtin `hash(key)` modulo `size`.
- `put` walks the key's chain. It overwrites the value of a node with an
  equal key. Otherwise it prepends a fresh node at the chain's head.
- `get` walks the chain and returns the first matching value, or `None`.
- `remove` walks the chain with a `prev` pointer. It unlinks the matching
  node, either from the bucket slot (head) or by bypassing it from `prev`.
  It returns whether the key was found.
- `__str__` prints one line per bucket. A line is `Bucket i: Empty`, or
  `Bucket i: ` followed by the chain's `key: value` items joined by ` -> `.
  The lines are joined by newlines.

The model keeps the program's imperative form: the same loops, the same
pointer updates and the same bucket array.

- **`chains.dfy`** (module `Chaining`) is the specification on values.
  - A chain is a `seq<(K, V)>`, head first. `Lookup`, `ChainPut` and
    `ChainRemove` say what `get`, `put` and `remove` do to one chain.
  - `Consistent` states the table invariants:
    - every entry sits in the bucket its key hashes to;
    - no key occurs twice in a chain, hence not twice in the whole table;
    - every entry agrees with an abstract `map<K, V>`, and every key of the
      map has an entry.
  - Lemmas prove that `put` and `remove` preserve these invariants, and
    state the per-chain behaviour: overwrite in place, prepend one entry,
    unlink one entry keeping the others in order, and remove twice.
- **`render.dfy`** (module `Render`) specifies the text `__str__` produces.
  The source's layout is one line per bucket only when no key or value
  prints with a newline in it; a `str` containing `"\n"` makes
  mapping.py:78 and :83 produce more than `size` lines. Under that
  condition (`PrintsOnOneLine`), the model proves that the text splits
  back into exactly one line per bucket, in bucket order.
- **`mapping.dfy`** (module `Mapping`) has the classes `HashNode` and
  `HashMap`.
  - `HashMap` has an `array` of node references, plus ghost fields:
    - `Nodes`: the nodes of each bucket;
    - `Chains`: their entries;
    - `Contents`: the abstract map;
    - `Repr`: the objects the map owns.
  - `Linked()` ties the heap to `Nodes` and `Chains`. `Valid()` adds
    `Consistent`.
  - Every method is proved against the functions of `Chaining` and
    `Render`: its new state or result is stated as a function of the old
    state.
  - The loops are the source's loops, with their invariants.
  - `ToString` needs only the heap shape `Linked()`, not the table
    invariants: the text is determined by the chains alone.
  - The bodies of `put` and `remove` are split into one method per step:
    - search: `FindNode`, `FindLink`;
    - overwrite: `SetValue`;
    - insert at the head: `Prepend`, `Push`;
    - unlink: `UnlinkHead`, `UnlinkAfter`.

  Each step's contract is stated separately.

Choices the model makes about what the source leaves to Python:

- Python's `hash` is foreign and randomised per process, so the raw hash
  is a constructor parameter, a function `K -> int`, and no concrete bucket
  index is claimed for any key.
- Python's `%` by a positive size is already in `[0, size)` (mapping.py:16),
  and for a positive divisor it agrees with Dafny's Euclidean `%`. So
  `FloorMod` is Dafny's `%`.
- `size == 0` divides by zero in `_hash` (mapping.py:9-16), so `size` has
  type `Pos`, a positive integer.

## Model

| member | source | states |
|---|---|---|
| Chaining.FloorMod | mapping.py:16 | Python's `hash(key) % size` for a positive size is an index in `[0, size)`, even for a negative raw hash |
| Chaining.FloorModCongruent | mapping.py:16 | the bucket index differs from the raw hash by a multiple of `size` |
| Mapping.HashMap.Hash | mapping.py:14-16 | `_hash(key)` is a valid bucket index, below `size` |
| Mapping.HashNode.constructor | mapping.py:3-6 | a new node holds the given key and value and links to nothing |
| Mapping.HashMap.constructor | mapping.py:9-12 | a new map has `size` empty buckets and represents the empty map; the invariants hold; `size` is fixed from then on (a `const`) |
| Mapping.HashMap.Linked | mapping.py:1-12 | the heap shape: slot `i` of `buckets` holds the head of `Nodes[i]`, each node carries the entry at its position in `Chains`, and links to the next node of its bucket, the last to null |
| Mapping.HashMap.Valid | mapping.py:8-34 | the object invariant: the heap shape and the table invariants |
| Mapping.HashMap.NodeOnlyAt | mapping.py:58-64 | in a valid map no node sits at two positions of the table, which is what lets `remove` and `put` update one node without disturbing others |
| Chaining.Keys | mapping.py:24-29 | the keys of a chain, in chain order, one per entry |
| Chaining.Overwrite | mapping.py:24-28 | the update branch of `put`: the first entry with the key gets the new value; the result has the same length and the same key at every position, each entry unchanged or the new pair |
| Chaining.ChainPut | mapping.py:18-34 | `put` on one chain: `ChainPut` overwrites the first entry with the key, else prepends `(k, v)`; the chain grows by one exactly when the key was absent |
| Chaining.ChainRemove | mapping.py:58-68 | `remove` on one chain: `ChainRemove` unlinks the first entry with the key, keeping the rest in order; the result is the chain itself or one entry shorter |
| Chaining.Lookup | mapping.py:41-48 | `get` on one chain is absent exactly when the key is not among the chain's keys |
| Chaining.LookupFirst | mapping.py:43-46 | the chain walk returns the value of the first entry with the key |
| Chaining.LookupUnique | mapping.py:43-46 | in a chain without duplicate keys, `get` finds the one entry with that key |
| Chaining.LookupAbsent | mapping.py:48 | a chain with no entry for the key gives `None` |
| Chaining.HoldsKeys | mapping.py:24-29 | a chain has an entry with key `k` exactly when `k` is among its keys |
| Chaining.Distinct | mapping.py:24-34 | two different entries of a duplicate-free chain have different keys |
| Chaining.FirstMatchExists | mapping.py:25-29 | a chain that contains the key has a first entry with that key, which the walk reaches |
| Chaining.OverwriteAt | mapping.py:26-28 | overwriting replaces exactly the first matching entry, at its position |
| Chaining.PutExisting | mapping.py:24-28 | `put` of a present key changes only that entry's value: same length, same keys in the same order |
| Chaining.PutNew | mapping.py:31-34 | `put` of a new key prepends exactly one entry; the old chain follows unchanged |
| Chaining.PutLookupSame | mapping.py:18-34 | after `put(k, v)` on a chain, `get(k)` is `v` |
| Chaining.PutLookupOther | mapping.py:18-34 | after `put(k, v)` on a chain, `get` of every other key is unchanged |
| Chaining.OverwriteLookupOther | mapping.py:26-28 | overwriting `k`'s value leaves every other key's lookup unchanged |
| Chaining.PutUnique | mapping.py:24-34 | `put` never creates a duplicate key in its chain and adds no key but its own |
| Chaining.OverwriteUnique | mapping.py:24-28 | overwriting a present key keeps every key at its position, so the chain stays duplicate-free |
| Chaining.PrependUnique | mapping.py:31-34 | prepending a key the chain lacks keeps it duplicate-free, with keys `[k] + Keys(c)` |
| Chaining.RemoveAt | mapping.py:58-64 | removing unlinks the first matching entry and keeps all others, in their original order |
| Chaining.RemoveMissing | mapping.py:58-68 | removing an absent key leaves the chain unchanged |
| Chaining.RemoveLookupSame | mapping.py:58-64 | after `remove(k)` on a duplicate-free chain, `get(k)` is `None` and the key is gone |
| Chaining.RemoveLookupOther | mapping.py:58-64 | `remove(k)` leaves every other key's lookup unchanged |
| Chaining.RemoveUnique | mapping.py:58-64 | `remove` keeps the chain duplicate-free and adds no key |
| Chaining.RemoveKeeps | mapping.py:58-64 | `remove(k)` keeps every other key of the chain |
| Chaining.SliceUnique | mapping.py:60-63 | dropping one entry keeps a chain duplicate-free and adds no key |
| Chaining.RemoveTwice | mapping.py:58-68 | a second `remove(k)` finds nothing and changes nothing |
| Chaining.Consistent | mapping.py:14-34 | the table invariants: one chain per bucket; each entry sits in the bucket its key hashes to and agrees with the abstract map; no key twice in a chain; every key of the map has an entry |
| Chaining.EmptyConsistent | mapping.py:11-12 | the empty table of `size` buckets satisfies the invariants and represents the empty map |
| Chaining.Placed | mapping.py:16 | in a consistent table, each entry sits in the bucket its key hashes to and agrees with the abstract map |
| Chaining.TableLookup | mapping.py:36-48 | `get` on the key's bucket gives exactly the abstract map's value, or `None` when the key is absent |
| Chaining.GloballyUnique | mapping.py:24-34 | no key appears at two positions of the whole table |
| Chaining.PutPlaced | mapping.py:18-34 | the bucket `put` changes keeps its entries in the right bucket, agreeing with the updated map, with no duplicate |
| Chaining.PutCovered | mapping.py:18-34 | the bucket `put` changes holds every key of the updated map that hashes to it |
| Chaining.PutConsistent | mapping.py:18-34 | `put` preserves all table invariants, and the abstract map gains or updates exactly that key |
| Chaining.RemovePlaced | mapping.py:50-68 | the bucket `remove` changes keeps its entries in the right bucket, agreeing with the reduced map, with no duplicate |
| Chaining.RemoveCovered | mapping.py:50-68 | the bucket `remove` changes holds every key of the reduced map that hashes to it |
| Chaining.RemoveConsistent | mapping.py:50-68 | `remove` preserves all table invariants, and the abstract map loses exactly that key |
| Mapping.HashMap.Put | mapping.py:18-34 | `put` keeps the invariants and sets `key` to `value` in the abstract map. Only `key`'s bucket changes, as `ChainPut` says. A present key keeps every node, with the value overwritten in place. A new key gets exactly one fresh node, at the head, followed by the old chain |
| Mapping.HashMap.FindNode | mapping.py:20-29 | the search loop of `put` stops at the first node with the key, or returns null exactly when the bucket has no such key |
| Mapping.HashMap.SetValue | mapping.py:26-27 | overwriting a node's value changes that one entry of the chain and that key of the map, nothing else |
| Mapping.HashMap.Prepend | mapping.py:31-34 | a fresh node for the new key becomes the head of its bucket, followed by the old chain; the map gains the key |
| Mapping.HashMap.Push | mapping.py:33-34 | a node already linked to the old head becomes the head; the other buckets are unchanged |
| Mapping.HashMap.Get | mapping.py:36-48 | `get` returns the abstract map's value for the key, or `None` when it is absent; it is the chain lookup of the key's bucket and changes nothing |
| Mapping.HashMap.Remove | mapping.py:50-68 | `remove` returns true exactly when the key was present. It keeps the invariants and removes the key from the abstract map. Only the key's bucket changes, as `ChainRemove` says. When the key was present, the bucket's node list is the old one with exactly one node dropped, the others in their order. When the key was absent, nothing changes |
| Mapping.HashMap.FindLink | mapping.py:52-58 | the search loop of `remove` stops at the first node with the key, with `prev` its predecessor (null at the head), or returns null when the key is absent |
| Mapping.HashMap.UnlinkHead | mapping.py:60-61 | replacing the bucket slot by the head's successor drops the head from the chain and its key from the map |
| Mapping.HashMap.UnlinkAfter | mapping.py:62-63 | bypassing node `j` from its predecessor drops exactly that entry from the chain and its key from the map; the other entries keep their order |
| Mapping.HashMap.ToString | mapping.py:70-83 | `__str__` builds exactly the text `Dump` specifies, from the current chains |
| Render.Digit | mapping.py:80-82 | the decimal digit character of a digit value |
| Render.NatStr | mapping.py:80-82 | the bucket number is printed as a non-empty run of decimal digits, with no leading zero (it starts with `0` only for bucket 0) |
| Render.NatStrValue | mapping.py:80-82 | the printed bucket number reads back as the bucket's index |
| Render.Split | mapping.py:83 | splitting text at newlines always gives at least one line |
| Render.SplitJoin | mapping.py:83 | joining newline-free lines with `"\n"` and splitting again gives the same lines |
| Render.Join | mapping.py:80-83 | Python's `sep.join(parts)`: the parts in order with `sep` between neighbours |
| Render.ItemText | mapping.py:78 | one chain item, `f"{key}: {value}"` |
| Render.LineHead | mapping.py:80-82 | the prefix `Bucket <i>: ` of bucket `i`'s line |
| Render.BucketLine | mapping.py:80-82 | bucket `i`'s line: the prefix, then `Empty` or the items joined by ` -> ` |
| Render.Dump | mapping.py:70-83 | the whole text of `__str__`: the bucket lines, in bucket order, joined by newlines |
| Render.Items | mapping.py:75-79 | one `key: value` item per chain entry |
| Render.Lines | mapping.py:72-82 | one line per bucket |
| Render.LineAvoidsNewline | mapping.py:78-82 | a bucket line has no newline when its keys and values print without one |
| Render.DumpLines | mapping.py:70-83 | when keys and values print on one line, the dump has exactly `size` lines, and line `i` is the line of bucket `i` |
| Render.EmptyMarker | mapping.py:80-82 | every line starts with `Bucket i: `, and continues with `Empty` exactly when its bucket is empty |
| Mapping.PutGetRemove | mapping.py:18-68 | from the contracts alone: a stored value is found again, a key is removed once but not twice, and afterwards `get` is `None` |

## Left out

- Python's builtin `hash` is a parameter of the constructor, a function `K -> int`. It is foreign and randomised per process. No concrete bucket index is claimed for any key.
- Key equality is Dafny's `==` on `K`. A user-defined `__eq__` or `__hash__`, or one inconsistent with the other, is not modelled. Unhashable keys raising `TypeError` are not modelled either.
- The `str()` of keys and values inside the f-strings on mapping.py:78 is a pair of parameter functions. Only the line and separator structure is modelled.
- Mapping.HashMap.constructor: `size` must be positive (type `Pos`). The source accepts any size at construction and fails only later: `size == 0` raises `ZeroDivisionError` in `_hash`, and a negative size gives an empty bucket list.
- Mapping.HashMap.Get: the result is `Option<V>`. Python returns `None` both for a missing key and for a stored `None` value; the model distinguishes the two.
- The `if __name__ == "__main__"` demo (mapping.py:86-109) is console printing that only exercises the operations.
- Memory release of unlinked nodes is not modelled. An unlinked node only leaves `Repr`.
