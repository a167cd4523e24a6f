/**
 * Value-level specification of a separately chained hash map.
 *
 * A chain is the list of (key, value) entries of one bucket, head first;
 * a table is the sequence of all chains, one per bucket.  The functions
 * here say what `put`, `get` and `remove` of `mapping.py` do to one chain,
 * and the lemmas state the properties those operations are meant to have.
 * The heap-based class in module Mapping is proved against them.
 */
module Chaining {

  datatype Option<T> = None | Some(value: T)

  /** A bucket count.  `_hash` divides by it, so it has to be positive. */
  type Pos = n: int | n > 0 witness 1

  type Chain<K, V> = seq<(K, V)>

  /**
   * Python's `a % n` for a positive divisor.  Python's `%` takes the sign of
   * the divisor (floor modulo), which for `n > 0` is Dafny's Euclidean `%`:
   * the result is a bucket index even when the raw hash `a` is negative.
   */
  function FloorMod(a: int, n: Pos): (r: nat)
    ensures r < n
  {
    a % n
  }

  /** The bucket index differs from the raw hash by a multiple of the bucket count. */
  lemma FloorModCongruent(a: int, n: Pos)
    ensures exists q :: a == q * n + FloorMod(a, n)
  {
    assert a == (a / n) * n + a % n;
  }

  /** The keys of a chain, head first. */
  function Keys<K, V>(c: Chain<K, V>): (ks: seq<K>)
    ensures |ks| == |c|
    ensures forall j | 0 <= j < |c| :: ks[j] == c[j].0
  {
    if c == [] then [] else [c[0].0] + Keys(c[1..])
  }

  /** The key of entry `j` of a chain. */
  function KeyAt<K, V>(c: Chain<K, V>, j: int): K
    requires 0 <= j < |c|
  {
    c[j].0
  }

  /**
   * No key occurs twice in the chain.  Stated with `KeyAt`, so that the
   * solver compares only the entries a proof names explicitly.
   */
  ghost predicate Unique<K, V>(c: Chain<K, V>)
  {
    forall i, j | 0 <= i < j < |c| :: KeyAt(c, i) != KeyAt(c, j)
  }

  /** Two different entries of a chain without duplicates have different keys. */
  lemma Distinct<K, V>(c: Chain<K, V>, i: int, j: int)
    requires Unique(c)
    requires 0 <= i < |c| && 0 <= j < |c| && i != j
    ensures c[i].0 != c[j].0
  {
    if i < j {
      assert KeyAt(c, i) != KeyAt(c, j);
    } else {
      assert KeyAt(c, j) != KeyAt(c, i);
    }
  }

  /** `j` is the position of the first entry of `c` whose key is `k`. */
  ghost predicate FirstMatch<K, V>(c: Chain<K, V>, k: K, j: int)
  {
    0 <= j < |c| && c[j].0 == k && forall t | 0 <= t < j :: c[t].0 != k
  }

  /** `get` on one chain: the value of the first entry with key `k`. */
  function Lookup<K(==), V>(c: Chain<K, V>, k: K): (r: Option<V>)
    ensures r.None? <==> k !in Keys(c)
  {
    if c == [] then None
    else if c[0].0 == k then Some(c[0].1)
    else Lookup(c[1..], k)
  }

  /** The update branch of `put`: the first entry with key `k` gets value `v`. */
  function Overwrite<K(==), V>(c: Chain<K, V>, k: K, v: V): (r: Chain<K, V>)
    ensures |r| == |c|
    ensures forall j | 0 <= j < |c| :: r[j].0 == c[j].0 && (r[j] == c[j] || r[j] == (k, v))
  {
    if c == [] then []
    else if c[0].0 == k then [(k, v)] + c[1..]
    else [c[0]] + Overwrite(c[1..], k, v)
  }

  /** `put` on one chain: overwrite in place, or prepend a new head entry. */
  function ChainPut<K(==), V>(c: Chain<K, V>, k: K, v: V): (r: Chain<K, V>)
    ensures |r| == if k in Keys(c) then |c| else |c| + 1
  {
    if k in Keys(c) then Overwrite(c, k, v) else [(k, v)] + c
  }

  /** `remove` on one chain: unlink the first entry with key `k`, if any. */
  function ChainRemove<K(==), V>(c: Chain<K, V>, k: K): (r: Chain<K, V>)
    ensures |r| == |c| - 1 || r == c
  {
    if c == [] then []
    else if c[0].0 == k then c[1..]
    else [c[0]] + ChainRemove(c[1..], k)
  }

  // ---------------------------------------------------------------------
  // Lookup

  lemma {:induction false} LookupFirst<K, V>(c: Chain<K, V>, k: K, j: int)
    requires FirstMatch(c, k, j)
    ensures Lookup(c, k) == Some(c[j].1)
  {
    if j > 0 {
      LookupFirst(c[1..], k, j - 1);
    }
  }

  /** In a chain without duplicate keys, `get` finds the one entry with that key. */
  lemma LookupUnique<K, V>(c: Chain<K, V>, k: K, j: int)
    requires Unique(c)
    requires 0 <= j < |c| && c[j].0 == k
    ensures Lookup(c, k) == Some(c[j].1)
  {
    forall t | 0 <= t < j ensures c[t].0 != k {
      Distinct(c, t, j);
    }
    LookupFirst(c, k, j);
  }

  // ---------------------------------------------------------------------
  // put

  lemma {:induction false} OverwriteAt<K, V>(c: Chain<K, V>, k: K, v: V, j: int)
    requires FirstMatch(c, k, j)
    ensures Overwrite(c, k, v) == c[j := (k, v)]
  {
    if j > 0 {
      OverwriteAt(c[1..], k, v, j - 1);
      assert c[j := (k, v)] == [c[0]] + c[1..][j - 1 := (k, v)];
    }
  }

  /** Every chain that contains `k` has a first entry with key `k`. */
  lemma FirstMatchExists<K, V>(c: Chain<K, V>, k: K) returns (j: int)
    requires k in Keys(c)
    ensures FirstMatch(c, k, j)
  {
    j := 0;
    while c[j].0 != k
      invariant 0 <= j < |c|
      invariant forall t | 0 <= t < j :: c[t].0 != k
      invariant k in Keys(c[j..])
      decreases |c| - j
    {
      assert Keys(c[j..]) == [c[j].0] + Keys(c[j + 1..]);
      j := j + 1;
    }
  }

  /**
   * `put` of a key the chain already holds overwrites that entry's value at
   * its position: no entry is added and the key order stays as it was.
   */
  lemma PutExisting<K, V>(c: Chain<K, V>, k: K, v: V, j: int)
    requires FirstMatch(c, k, j)
    ensures ChainPut(c, k, v) == c[j := (k, v)]
    ensures |ChainPut(c, k, v)| == |c| && Keys(ChainPut(c, k, v)) == Keys(c)
  {
    assert k == Keys(c)[j];
    OverwriteAt(c, k, v, j);
  }

  /** `put` of a new key prepends exactly one entry; the old chain follows unchanged. */
  lemma PutNew<K, V>(c: Chain<K, V>, k: K, v: V)
    requires forall t | 0 <= t < |c| :: c[t].0 != k
    ensures ChainPut(c, k, v) == [(k, v)] + c
    ensures Keys(ChainPut(c, k, v)) == [k] + Keys(c)
  {
    assert k !in Keys(c);
  }

  /** After `put(k, v)`, `get(k)` is `v`. */
  lemma PutLookupSame<K, V>(c: Chain<K, V>, k: K, v: V)
    ensures Lookup(ChainPut(c, k, v), k) == Some(v)
  {
    if k in Keys(c) {
      var j := FirstMatchExists(c, k);
      OverwriteAt(c, k, v, j);
      LookupFirst(c[j := (k, v)], k, j);
    }
  }

  /** After `put(k, v)`, `get` of every other key gives what it gave before. */
  lemma {:induction false} PutLookupOther<K, V>(c: Chain<K, V>, k: K, v: V, k': K)
    requires k' != k
    ensures Lookup(ChainPut(c, k, v), k') == Lookup(c, k')
  {
    if k in Keys(c) {
      OverwriteLookupOther(c, k, v, k');
    }
  }

  lemma {:induction false} OverwriteLookupOther<K, V>(c: Chain<K, V>, k: K, v: V, k': K)
    requires k' != k
    ensures Lookup(Overwrite(c, k, v), k') == Lookup(c, k')
  {
    if c != [] && c[0].0 != k {
      OverwriteLookupOther(c[1..], k, v, k');
      assert Overwrite(c, k, v)[1..] == Overwrite(c[1..], k, v);
    } else if c != [] {
      assert Overwrite(c, k, v)[1..] == c[1..];
    }
  }

  /** `put` never creates a duplicate key in its chain, and adds no key but its own. */
  lemma PutUnique<K, V>(c: Chain<K, V>, k: K, v: V)
    requires Unique(c)
    ensures Unique(ChainPut(c, k, v))
    ensures forall k' | k' in Keys(ChainPut(c, k, v)) :: k' == k || k' in Keys(c)
  {
    if k in Keys(c) {
      var j := FirstMatchExists(c, k);
      OverwriteUnique(c, k, v, j);
    } else {
      PrependUnique(c, k, v);
    }
  }

  /** Overwriting a value keeps every key at its position, so no duplicate appears. */
  lemma OverwriteUnique<K, V>(c: Chain<K, V>, k: K, v: V, j: int)
    requires Unique(c) && FirstMatch(c, k, j)
    ensures Unique(ChainPut(c, k, v)) && Keys(ChainPut(c, k, v)) == Keys(c)
  {
    var r := ChainPut(c, k, v);
    PutExisting(c, k, v, j);
    forall a, b | 0 <= a < b < |r| ensures KeyAt(r, a) != KeyAt(r, b) {
      assert r[a].0 == Keys(r)[a] == Keys(c)[a] == c[a].0;
      assert r[b].0 == Keys(r)[b] == Keys(c)[b] == c[b].0;
      Distinct(c, a, b);
    }
  }

  /** Prepending a key the chain lacks keeps it free of duplicates. */
  lemma PrependUnique<K, V>(c: Chain<K, V>, k: K, v: V)
    requires Unique(c) && k !in Keys(c)
    ensures Unique(ChainPut(c, k, v)) && Keys(ChainPut(c, k, v)) == [k] + Keys(c)
  {
    var r := ChainPut(c, k, v);
    assert r == [(k, v)] + c;
    forall a, b | 0 <= a < b < |r| ensures KeyAt(r, a) != KeyAt(r, b) {
      if a == 0 {
        assert Keys(c)[b - 1] == c[b - 1].0;
      } else {
        Distinct(c, a - 1, b - 1);
      }
    }
  }

  // ---------------------------------------------------------------------
  // remove

  /** Removing the first entry with key `k` keeps the entries before and after it, in order. */
  lemma {:induction false} RemoveAt<K, V>(c: Chain<K, V>, k: K, j: int)
    requires FirstMatch(c, k, j)
    ensures ChainRemove(c, k) == c[..j] + c[j + 1..]
  {
    if j > 0 {
      RemoveAt(c[1..], k, j - 1);
      assert c[..j] == [c[0]] + c[1..][..j - 1];
      assert c[j + 1..] == c[1..][j..];
    }
  }

  /** Removing a key the chain does not hold leaves it unchanged. */
  lemma {:induction false} RemoveMissing<K, V>(c: Chain<K, V>, k: K)
    requires forall t | 0 <= t < |c| :: c[t].0 != k
    ensures ChainRemove(c, k) == c
  {
    if c != [] {
      RemoveMissing(c[1..], k);
    }
  }

  /** `remove` on a chain without duplicates leaves no entry with that key. */
  lemma RemoveLookupSame<K, V>(c: Chain<K, V>, k: K)
    requires Unique(c)
    ensures Lookup(ChainRemove(c, k), k) == None
    ensures k !in Keys(ChainRemove(c, k))
  {
    if k in Keys(c) {
      var j := FirstMatchExists(c, k);
      RemoveAt(c, k, j);
      var r := c[..j] + c[j + 1..];
      forall t | 0 <= t < |r| ensures r[t].0 != k {
        var o := if t < j then t else t + 1;
        assert r[t] == c[o];
        Distinct(c, o, j);
      }
      LookupAbsent(r, k);
    } else {
      RemoveMissing(c, k);
    }
  }

  /** `remove(k)` does not change `get` of any other key. */
  lemma {:induction false} RemoveLookupOther<K, V>(c: Chain<K, V>, k: K, k': K)
    requires k' != k
    ensures Lookup(ChainRemove(c, k), k') == Lookup(c, k')
  {
    if c != [] && c[0].0 != k {
      RemoveLookupOther(c[1..], k, k');
      assert ChainRemove(c, k)[1..] == ChainRemove(c[1..], k);
    }
  }

  /** `remove` keeps the chain free of duplicates and adds no key. */
  lemma RemoveUnique<K, V>(c: Chain<K, V>, k: K)
    requires Unique(c)
    ensures Unique(ChainRemove(c, k))
    ensures forall t | 0 <= t < |ChainRemove(c, k)| :: ChainRemove(c, k)[t].0 in Keys(c)
  {
    if k in Keys(c) {
      var j := FirstMatchExists(c, k);
      RemoveAt(c, k, j);
      SliceUnique(c, j, ChainRemove(c, k));
    } else {
      RemoveMissing(c, k);
      forall t | 0 <= t < |c| ensures c[t].0 in Keys(c) {
        assert Keys(c)[t] == c[t].0;
      }
    }
  }

  /** Dropping entry `j` keeps a chain free of duplicates and adds no key. */
  lemma SliceUnique<K, V>(c: Chain<K, V>, j: int, r: Chain<K, V>)
    requires Unique(c) && 0 <= j < |c| && r == c[..j] + c[j + 1..]
    ensures Unique(r)
    ensures forall t | 0 <= t < |r| :: r[t].0 in Keys(c)
  {
    forall t | 0 <= t < |r| ensures r[t] == c[if t < j then t else t + 1] {
    }
    forall a, b | 0 <= a < b < |r| ensures KeyAt(r, a) != KeyAt(r, b) {
      Distinct(c, if a < j then a else a + 1, if b < j then b else b + 1);
    }
    forall t | 0 <= t < |r| ensures r[t].0 in Keys(c) {
      assert Keys(c)[if t < j then t else t + 1] == r[t].0;
    }
  }

  /** A second `remove(k)` finds nothing and changes nothing. */
  lemma RemoveTwice<K, V>(c: Chain<K, V>, k: K)
    requires Unique(c)
    ensures k !in Keys(ChainRemove(c, k))
    ensures ChainRemove(ChainRemove(c, k), k) == ChainRemove(c, k)
  {
    RemoveLookupSame(c, k);
    var r := ChainRemove(c, k);
    forall t | 0 <= t < |r| ensures r[t].0 != k {
      assert Keys(r)[t] == r[t].0;
    }
    RemoveMissing(r, k);
  }

  // ---------------------------------------------------------------------
  // Tables: one chain per bucket, abstracted by a map

  /**
   * The table invariants the map keeps: `n` chains; every entry sits in the
   * bucket of its key's hash and agrees with the abstract map `m`; no key
   * twice in a chain; and every key of `m` has an entry in its bucket.
   * The quantifiers fire only on `KeyAt` and `Holds` terms, which the
   * lemmas below (Placed, TableLookup) introduce where they are needed.
   */
  ghost predicate Consistent<K, V>(t: seq<Chain<K, V>>, hash: K -> int, n: Pos, m: map<K, V>)
  {
    |t| == n &&
    (forall i, j {:trigger KeyAt(t[i], j)} | 0 <= i < |t| && 0 <= j < |t[i]| ::
       FloorMod(hash(KeyAt(t[i], j)), n) == i && KeyAt(t[i], j) in m && m[KeyAt(t[i], j)] == t[i][j].1) &&
    (forall i | 0 <= i < |t| :: Unique(t[i])) &&
    (forall k {:trigger Holds(t[FloorMod(hash(k), n)], k)} | k in m :: Holds(t[FloorMod(hash(k), n)], k))
  }

  /** Some entry of `c` has key `k`. */
  ghost predicate Holds<K, V>(c: Chain<K, V>, k: K)
  {
    exists j :: 0 <= j < |c| && c[j].0 == k
  }
  /** A chain holds `k` exactly when `k` is among its keys. */
  lemma HoldsKeys<K, V>(c: Chain<K, V>, k: K)
    ensures Holds(c, k) <==> k in Keys(c)
  {
    if k in Keys(c) {
      var j :| 0 <= j < |Keys(c)| && Keys(c)[j] == k;
      assert c[j].0 == k;
    }
  }

  /** `remove` of one key keeps every other key of the chain. */
  lemma {:induction false} RemoveKeeps<K, V>(c: Chain<K, V>, k: K, k': K)
    requires k' != k && Holds(c, k')
    ensures Holds(ChainRemove(c, k), k')
  {
    var j :| 0 <= j < |c| && c[j].0 == k';
    var r := ChainRemove(c, k);
    if c[0].0 == k {
      assert r[j - 1] == c[j];
    } else if j == 0 {
      assert r[0] == c[0];
    } else {
      assert c[1..][j - 1] == c[j];
      RemoveKeeps(c[1..], k, k');
      var rest := ChainRemove(c[1..], k);
      var i :| 0 <= i < |rest| && rest[i].0 == k';
      assert r[i + 1] == rest[i];
    }
  }


  /** A chain none of whose entries has key `k` answers `None` for it. */
  lemma LookupAbsent<K, V>(c: Chain<K, V>, k: K)
    requires forall j | 0 <= j < |c| :: c[j].0 != k
    ensures Lookup(c, k) == None
  {
    assert k !in Keys(c);
  }

  /** Every entry of the table sits in the bucket of its key and agrees with the abstract map. */
  lemma Placed<K, V>(t: seq<Chain<K, V>>, hash: K -> int, n: Pos, m: map<K, V>, i: int, j: int)
    requires Consistent(t, hash, n, m)
    requires 0 <= i < |t| && 0 <= j < |t[i]|
    ensures FloorMod(hash(t[i][j].0), n) == i && t[i][j].0 in m && m[t[i][j].0] == t[i][j].1
  {
    assert KeyAt(t[i], j) == t[i][j].0;
  }

  /** A map with no entries is the table of empty chains. */
  lemma EmptyConsistent<K, V>(hash: K -> int, n: Pos)
    ensures Consistent<K, V>(seq(n, _ => []), hash, n, map[])
  {
  }

  /** `get` on the key's bucket answers exactly what the abstract map holds. */
  lemma TableLookup<K, V>(t: seq<Chain<K, V>>, hash: K -> int, n: Pos, m: map<K, V>, k: K)
    requires Consistent(t, hash, n, m)
    ensures Lookup(t[FloorMod(hash(k), n)], k) == if k in m then Some(m[k]) else None
  {
    var b := FloorMod(hash(k), n);
    var c := t[b];
    if k in m {
      assert Holds(t[b], k);
      var j :| 0 <= j < |c| && c[j].0 == k;
      Placed(t, hash, n, m, b, j);
      LookupUnique(c, k, j);
    } else {
      forall j | 0 <= j < |c| ensures c[j].0 != k {
        Placed(t, hash, n, m, b, j);
      }
      LookupAbsent(c, k);
    }
  }

  /** Every key appears at most once in the whole table. */
  lemma GloballyUnique<K, V>(t: seq<Chain<K, V>>, hash: K -> int, n: Pos, m: map<K, V>,
                             i: int, j: int, i': int, j': int)
    requires Consistent(t, hash, n, m)
    requires 0 <= i < |t| && 0 <= j < |t[i]| && 0 <= i' < |t| && 0 <= j' < |t[i']|
    requires t[i][j].0 == t[i'][j'].0
    ensures i == i' && j == j'
  {
    Placed(t, hash, n, m, i, j);
    Placed(t, hash, n, m, i', j');
    if j != j' {
      Distinct(t[i], j, j');
    }
  }

  /**
   * The entries of the bucket `put` changes sit in the right bucket, agree
   * with the updated map and have distinct keys.
   */
  lemma PutPlaced<K, V>(t: seq<Chain<K, V>>, hash: K -> int, n: Pos, m: map<K, V>, k: K, v: V)
    requires Consistent(t, hash, n, m)
    ensures var b := FloorMod(hash(k), n); var c := ChainPut(t[b], k, v);
            Unique(c) &&
            forall j | 0 <= j < |c| ::
              FloorMod(hash(c[j].0), n) == b && c[j].0 in m[k := v] && m[k := v][c[j].0] == c[j].1
  {
    var b := FloorMod(hash(k), n);
    var c := ChainPut(t[b], k, v);
    var m' := m[k := v];
    PutUnique(t[b], k, v);
    if k in Keys(t[b]) {
      var jk := FirstMatchExists(t[b], k);
      PutExisting(t[b], k, v, jk);
      forall j | 0 <= j < |c| ensures FloorMod(hash(c[j].0), n) == b && c[j].0 in m' && m'[c[j].0] == c[j].1 {
        if j != jk {
          Placed(t, hash, n, m, b, j);
          Distinct(t[b], j, jk);
        }
      }
    } else {
      PutNew(t[b], k, v);
      forall j | 0 <= j < |c| ensures FloorMod(hash(c[j].0), n) == b && c[j].0 in m' && m'[c[j].0] == c[j].1 {
        if j > 0 {
          assert c[j] == t[b][j - 1];
          Placed(t, hash, n, m, b, j - 1);
        }
      }
    }
  }

  /** The bucket `put` changes holds every key of the updated map that hashes to it. */
  lemma PutCovered<K, V>(t: seq<Chain<K, V>>, hash: K -> int, n: Pos, m: map<K, V>, k: K, v: V)
    requires Consistent(t, hash, n, m)
    ensures var b := FloorMod(hash(k), n); var c := ChainPut(t[b], k, v);
            forall k' | k' in m[k := v] && FloorMod(hash(k'), n) == b :: Holds(c, k')
  {
    var b := FloorMod(hash(k), n);
    var c := ChainPut(t[b], k, v);
    if k in Keys(t[b]) {
      var jk := FirstMatchExists(t[b], k);
      PutExisting(t[b], k, v, jk);
    } else {
      PutNew(t[b], k, v);
    }
    forall k' | k' in m[k := v] && FloorMod(hash(k'), n) == b ensures Holds(c, k') {
      if k' != k {
        assert Holds(t[FloorMod(hash(k'), n)], k');
        HoldsKeys(t[b], k');
      }
      HoldsKeys(c, k');
    }
  }

  /** `put` keeps the table invariants; the abstract map gains or updates one entry. */
  lemma PutConsistent<K, V>(t: seq<Chain<K, V>>, hash: K -> int, n: Pos, m: map<K, V>, k: K, v: V)
    requires Consistent(t, hash, n, m)
    ensures Consistent(t[FloorMod(hash(k), n) := ChainPut(t[FloorMod(hash(k), n)], k, v)],
                       hash, n, m[k := v])
  {
    var b := FloorMod(hash(k), n);
    var t': seq<Chain<K, V>>, m': map<K, V> := t[b := ChainPut(t[b], k, v)], m[k := v];
    PutPlaced(t, hash, n, m, k, v);
    PutCovered(t, hash, n, m, k, v);
    forall i, j | 0 <= i < |t'| && 0 <= j < |t'[i]|
      ensures FloorMod(hash(KeyAt(t'[i], j)), n) == i && KeyAt(t'[i], j) in m' && m'[KeyAt(t'[i], j)] == t'[i][j].1
    {
      if i != b {
        assert t'[i] == t[i];
        Placed(t, hash, n, m, i, j);
      }
    }
    forall i | 0 <= i < |t'| ensures Unique(t'[i]) {
      if i != b {
        assert t'[i] == t[i];
      }
    }
    forall k' | k' in m' ensures Holds(t'[FloorMod(hash(k'), n)], k') {
      var b' := FloorMod(hash(k'), n);
      if b' != b {
        assert k' in m;
        assert Holds(t[FloorMod(hash(k'), n)], k');
        assert t'[b'] == t[b'];
      }
    }
  }

  /**
   * The entries of the bucket `remove` changes sit in the right bucket, agree
   * with the reduced map and have distinct keys.
   */
  lemma RemovePlaced<K, V>(t: seq<Chain<K, V>>, hash: K -> int, n: Pos, m: map<K, V>, k: K)
    requires Consistent(t, hash, n, m)
    ensures var b := FloorMod(hash(k), n); var c := ChainRemove(t[b], k);
            Unique(c) &&
            forall j | 0 <= j < |c| ::
              FloorMod(hash(c[j].0), n) == b && c[j].0 in m - {k} && (m - {k})[c[j].0] == c[j].1
  {
    var b := FloorMod(hash(k), n);
    var c := ChainRemove(t[b], k);
    var m' := m - {k};
    RemoveUnique(t[b], k);
    if k in Keys(t[b]) {
      var jk := FirstMatchExists(t[b], k);
      RemoveAt(t[b], k, jk);
      forall j | 0 <= j < |c| ensures FloorMod(hash(c[j].0), n) == b && c[j].0 in m' && m'[c[j].0] == c[j].1 {
        var o := if j < jk then j else j + 1;
        assert c[j] == t[b][o];
        Placed(t, hash, n, m, b, o);
        Distinct(t[b], o, jk);
      }
    } else {
      RemoveMissing(t[b], k);
      forall j | 0 <= j < |c| ensures FloorMod(hash(c[j].0), n) == b && c[j].0 in m' && m'[c[j].0] == c[j].1 {
        Placed(t, hash, n, m, b, j);
      }
    }
  }

  /** The bucket `remove` changes holds every key of the reduced map that hashes to it. */
  lemma RemoveCovered<K, V>(t: seq<Chain<K, V>>, hash: K -> int, n: Pos, m: map<K, V>, k: K)
    requires Consistent(t, hash, n, m)
    ensures var b := FloorMod(hash(k), n); var c := ChainRemove(t[b], k);
            forall k' | k' in m - {k} && FloorMod(hash(k'), n) == b :: Holds(c, k')
  {
    var b := FloorMod(hash(k), n);
    var c := ChainRemove(t[b], k);
    forall k' | k' in m - {k} && FloorMod(hash(k'), n) == b ensures Holds(c, k') {
      assert Holds(t[FloorMod(hash(k'), n)], k');
      RemoveKeeps(t[b], k, k');
    }
  }

  /** `remove` keeps the table invariants; the abstract map loses the key. */
  lemma RemoveConsistent<K, V>(t: seq<Chain<K, V>>, hash: K -> int, n: Pos, m: map<K, V>, k: K)
    requires Consistent(t, hash, n, m)
    ensures Consistent(t[FloorMod(hash(k), n) := ChainRemove(t[FloorMod(hash(k), n)], k)],
                       hash, n, m - {k})
  {
    var b := FloorMod(hash(k), n);
    var t': seq<Chain<K, V>>, m': map<K, V> := t[b := ChainRemove(t[b], k)], m - {k};
    RemovePlaced(t, hash, n, m, k);
    RemoveCovered(t, hash, n, m, k);
    forall i, j | 0 <= i < |t'| && 0 <= j < |t'[i]|
      ensures FloorMod(hash(KeyAt(t'[i], j)), n) == i && KeyAt(t'[i], j) in m' && m'[KeyAt(t'[i], j)] == t'[i][j].1
    {
      if i != b {
        assert t'[i] == t[i];
        Placed(t, hash, n, m, i, j);
      }
    }
    forall i | 0 <= i < |t'| ensures Unique(t'[i]) {
      if i != b {
        assert t'[i] == t[i];
      }
    }
    forall k' | k' in m' ensures Holds(t'[FloorMod(hash(k'), n)], k') {
      var b' := FloorMod(hash(k'), n);
      if b' != b {
        assert Holds(t[FloorMod(hash(k'), n)], k');
        assert t'[b'] == t[b'];
      }
    }
  }
}
