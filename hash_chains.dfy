/**
 * The value-level meaning of the separate-chaining hash table of
 * tests/graphs/correct/hash_table.c: its string hash, the array of bucket
 * chains (each chain listed from its head node), what a lookup finds, and
 * the chains that an insert or a remove leaves behind.  The class in
 * hash_table.dfy is proved against these definitions.
 */
module HashChains {
  import opened CTypes

  /** The multiplier of the polynomial string hash. */
  const Prime: nat := 31

  /** A character of a C string key: never the terminating NUL, and read as an unsigned byte. */
  type KeyChar = c: char | 0 < c as int < 256 witness 'a'

  /** A key: the characters of a NUL-terminated C string, without the terminator. */
  type Key = seq<KeyChar>

  /** One node of a chain: its (copied) key and its value. */
  datatype Entry = Entry(key: Key, value: Int32)

  /** The bucket array: one chain per bucket, head node first. */
  type Buckets = seq<seq<Entry>>

  /**
   * The largest table size for which the running hash never wraps around:
   * a hash below `n` times 31 plus a character stays below 2^64.
   */
  const MaxTableSize: nat := (SizeModulus - 256) / Prime

  /** A table size that the hash can be reduced modulo, without overflow. */
  predicate Hashable(n: nat) {
    0 < n <= MaxTableSize
  }

  /** The polynomial hash as a left fold over the key: h := (h * 31 + c) % n, from 0. */
  function Hash(key: Key, n: nat): (h: nat)
    requires n > 0
    ensures h < n
  {
    if key == [] then 0 else (Hash(key[..|key| - 1], n) * Prime + key[|key| - 1] as int) % n
  }

  /** Position of the first node of `chain` whose key is `key`, or -1 if there is none. */
  function IndexOf(chain: seq<Entry>, key: Key): (r: int)
    ensures -1 <= r < |chain|
    ensures 0 <= r ==> chain[r].key == key
    ensures forall j :: 0 <= j < |chain| && (r < 0 || j < r) ==> chain[j].key != key
  {
    if chain == [] then -1
    else if chain[0].key == key then 0
    else
      var r := IndexOf(chain[1..], key);
      if r < 0 then -1 else r + 1
  }

  /** The value a lookup of `key` finds: the first match in the chain of bucket Hash(key). */
  function Lookup(bs: Buckets, key: Key): Option<Int32>
    requires |bs| > 0
  {
    var chain := bs[Hash(key, |bs|)];
    var j := IndexOf(chain, key);
    if j < 0 then None else Some(chain[j].value)
  }

  /** Every node sits in the bucket its key hashes to. */
  ghost predicate WellPlaced(bs: Buckets) {
    forall i, j :: 0 <= i < |bs| && 0 <= j < |bs[i]| ==> Hash(bs[i][j].key, |bs|) == i
  }

  /** No chain holds the same key twice. */
  ghost predicate DistinctInChains(bs: Buckets) {
    forall i, j1, j2 :: 0 <= i < |bs| && 0 <= j1 < j2 < |bs[i]| ==> bs[i][j1].key != bs[i][j2].key
  }

  /** The structural invariant of the bucket array. */
  ghost predicate WellFormed(bs: Buckets) {
    WellPlaced(bs) && DistinctInChains(bs)
  }

  /** The number of nodes in all chains together. */
  function TotalNodes(bs: Buckets): nat {
    if bs == [] then 0 else |bs[0]| + TotalNodes(bs[1..])
  }

  /**
   * The buckets after inserting `key` with `value`: a node already holding
   * `key` gets the new value in place; otherwise a new node becomes the head
   * of the key's bucket.
   */
  function Inserted(bs: Buckets, key: Key, value: Int32): (r: Buckets)
    requires |bs| > 0
    ensures |r| == |bs|
  {
    var i := Hash(key, |bs|);
    var j := IndexOf(bs[i], key);
    if 0 <= j then bs[i := bs[i][j := Entry(key, value)]]
    else bs[i := [Entry(key, value)] + bs[i]]
  }

  /** The buckets after removing `key`: the first node holding it is unlinked, if any. */
  function Removed(bs: Buckets, key: Key): (r: Buckets)
    requires |bs| > 0
    ensures |r| == |bs|
  {
    var i := Hash(key, |bs|);
    var j := IndexOf(bs[i], key);
    if j < 0 then bs else bs[i := bs[i][..j] + bs[i][j + 1..]]
  }

  /** A bucket array whose chains are all empty holds no node. */
  lemma {:induction false} TotalNodesAllEmpty(bs: Buckets)
    requires forall i :: 0 <= i < |bs| ==> bs[i] == []
    ensures TotalNodes(bs) == 0
  {
    if bs != [] {
      TotalNodesAllEmpty(bs[1..]);
    }
  }

  /** Replacing one chain changes the node total by the difference in its length. */
  lemma {:induction false} TotalNodesUpdate(bs: Buckets, i: nat, chain: seq<Entry>)
    requires i < |bs|
    ensures TotalNodes(bs[i := chain]) == TotalNodes(bs) - |bs[i]| + |chain|
  {
    if i > 0 {
      assert bs[i := chain][1..] == bs[1..][i - 1 := chain];
      TotalNodesUpdate(bs[1..], i - 1, chain);
    }
  }

  /** Two chains with the same keys, position by position, agree on every search. */
  lemma IndexOfSameKeys(c1: seq<Entry>, c2: seq<Entry>, key: Key)
    requires |c1| == |c2|
    requires forall j :: 0 <= j < |c1| ==> c1[j].key == c2[j].key
    ensures IndexOf(c1, key) == IndexOf(c2, key)
  {
    var r1, r2 := IndexOf(c1, key), IndexOf(c2, key);
    if 0 <= r1 {
      assert c2[r1].key == key;
    }
    if 0 <= r2 {
      assert c1[r2].key == key;
    }
  }

  /** Prepending a node with another key shifts the first match by one. */
  lemma IndexOfPrepend(e: Entry, chain: seq<Entry>, key: Key)
    requires e.key != key
    ensures IndexOf([e] + chain, key) == if IndexOf(chain, key) < 0 then -1 else IndexOf(chain, key) + 1
  {
    assert ([e] + chain)[1..] == chain;
  }

  /** Unlinking node `j` (a node not holding `key`) keeps the match for `key`, one place earlier if it came later. */
  lemma IndexOfUnlinked(chain: seq<Entry>, j: nat, key: Key)
    requires j < |chain| && chain[j].key != key
    ensures var r := IndexOf(chain, key);
            IndexOf(chain[..j] + chain[j + 1..], key) == if r < 0 then -1 else if r < j then r else r - 1
  {
    var c := chain[..j] + chain[j + 1..];
    var r, r' := IndexOf(chain, key), IndexOf(c, key);
    assert forall m :: 0 <= m < j ==> c[m] == chain[m];
    assert forall m :: j <= m < |c| ==> c[m] == chain[m + 1];
    if r < 0 {
      assert forall m :: 0 <= m < |c| ==> c[m].key != key;
    } else if r < j {
      assert c[r].key == key;
    } else {
      assert c[r - 1].key == key;
      forall m | 0 <= m < r - 1
        ensures c[m].key != key
      {
        var k := if m < j then m else m + 1;
        assert c[m] == chain[k] && k < r;
      }
    }
  }

  /** Insertion keeps every node in its bucket and keys distinct within a chain. */
  lemma InsertedWellFormed(bs: Buckets, key: Key, value: Int32)
    requires |bs| > 0 && WellFormed(bs)
    ensures WellFormed(Inserted(bs, key, value))
  {
    InsertedWellPlaced(bs, key, value);
    InsertedDistinct(bs, key, value);
  }

  /** The chain that an insert changes, position by position, in terms of the old one. */
  lemma InsertedChain(bs: Buckets, key: Key, value: Int32, m: nat)
    requires |bs| > 0
    requires m < |Inserted(bs, key, value)[Hash(key, |bs|)]|
    ensures var i := Hash(key, |bs|);
            var r := Inserted(bs, key, value);
            var j := IndexOf(bs[i], key);
            && (r[i][m].key == key || r[i][m] == bs[i][if j < 0 then m - 1 else m])
            && (j < 0 ==> (m == 0 <==> r[i][m].key == key))
            && (0 <= j ==> r[i][m].key == bs[i][m].key)
  {
  }

  /** Insertion keeps every node in the bucket its key hashes to. */
  lemma InsertedWellPlaced(bs: Buckets, key: Key, value: Int32)
    requires |bs| > 0 && WellPlaced(bs)
    ensures WellPlaced(Inserted(bs, key, value))
  {
    var i := Hash(key, |bs|);
    var r: Buckets := Inserted(bs, key, value);
    forall b: int, m: int | 0 <= b < |r| && 0 <= m < |r[b]|
      ensures Hash(r[b][m].key, |r|) == b
    {
      if b == i {
        InsertedChain(bs, key, value, m);
      } else {
        assert r[b] == bs[b];
      }
    }
  }

  /** Insertion never gives a chain the same key twice. */
  lemma InsertedDistinct(bs: Buckets, key: Key, value: Int32)
    requires |bs| > 0 && DistinctInChains(bs)
    ensures DistinctInChains(Inserted(bs, key, value))
  {
    var i := Hash(key, |bs|);
    var j := IndexOf(bs[i], key);
    var r: Buckets := Inserted(bs, key, value);
    forall b: int, j1: int, j2: int | 0 <= b < |r| && 0 <= j1 < j2 < |r[b]|
      ensures r[b][j1].key != r[b][j2].key
    {
      if b == i {
        InsertedChain(bs, key, value, j1);
        InsertedChain(bs, key, value, j2);
        if j < 0 && j1 > 0 {
          assert bs[i][j1 - 1].key != bs[i][j2 - 1].key;
        }
      } else {
        assert r[b] == bs[b];
      }
    }
  }

  /** Insertion adds exactly one node when the key was absent, and none when it was present. */
  lemma InsertedTotal(bs: Buckets, key: Key, value: Int32)
    requires |bs| > 0
    ensures TotalNodes(Inserted(bs, key, value)) == TotalNodes(bs) + (if Lookup(bs, key).None? then 1 else 0)
  {
    var i := Hash(key, |bs|);
    var j := IndexOf(bs[i], key);
    if 0 <= j {
      TotalNodesUpdate(bs, i, bs[i][j := Entry(key, value)]);
    } else {
      TotalNodesUpdate(bs, i, [Entry(key, value)] + bs[i]);
    }
  }

  /** After inserting `key`, a lookup of it finds the new value and every other key finds what it found before. */
  lemma LookupInserted(bs: Buckets, key: Key, value: Int32, other: Key)
    requires |bs| > 0
    ensures Lookup(Inserted(bs, key, value), other) == if other == key then Some(value) else Lookup(bs, other)
  {
    var i := Hash(key, |bs|);
    var j := IndexOf(bs[i], key);
    var r := Inserted(bs, key, value);
    if other == key {
      if 0 <= j {
        IndexOfSameKeys(bs[i], r[i], key);
      } else {
        assert r[i][0] == Entry(key, value);
      }
    } else if Hash(other, |bs|) == i {
      if 0 <= j {
        IndexOfSameKeys(bs[i], r[i], other);
      } else {
        IndexOfPrepend(Entry(key, value), bs[i], other);
      }
    }
  }

  /** Removal keeps every node in its bucket and keys distinct within a chain. */
  lemma RemovedWellFormed(bs: Buckets, key: Key)
    requires |bs| > 0 && WellFormed(bs)
    ensures WellFormed(Removed(bs, key))
  {
    var i := Hash(key, |bs|);
    var j := IndexOf(bs[i], key);
    if 0 <= j {
      var r := Removed(bs, key);
      var c := bs[i][..j] + bs[i][j + 1..];
      assert r[i] == c;
      assert forall m :: 0 <= m < j ==> c[m] == bs[i][m];
      assert forall m :: j <= m < |c| ==> c[m] == bs[i][m + 1];
      forall j1, j2 | 0 <= j1 < j2 < |c|
        ensures c[j1].key != c[j2].key
      {
        var k1 := if j1 < j then j1 else j1 + 1;
        var k2 := if j2 < j then j2 else j2 + 1;
        assert c[j1] == bs[i][k1] && c[j2] == bs[i][k2] && k1 < k2;
      }
    }
  }

  /** Removal unlinks exactly one node when the key was present, and none when it was absent. */
  lemma RemovedTotal(bs: Buckets, key: Key)
    requires |bs| > 0
    ensures TotalNodes(Removed(bs, key)) == TotalNodes(bs) - (if Lookup(bs, key).Some? then 1 else 0)
  {
    var i := Hash(key, |bs|);
    var j := IndexOf(bs[i], key);
    if 0 <= j {
      TotalNodesUpdate(bs, i, bs[i][..j] + bs[i][j + 1..]);
    }
  }

  /** After removing `key` a lookup of it finds nothing, and every other key finds what it found before. */
  lemma LookupRemoved(bs: Buckets, key: Key, other: Key)
    requires |bs| > 0 && WellFormed(bs)
    ensures Lookup(Removed(bs, key), other) == if other == key then None else Lookup(bs, other)
  {
    var i := Hash(key, |bs|);
    var j := IndexOf(bs[i], key);
    if 0 <= j && Hash(other, |bs|) == i {
      var c := bs[i][..j] + bs[i][j + 1..];
      assert Removed(bs, key)[i] == c;
      if other == key {
        forall m | 0 <= m < |c|
          ensures c[m].key != key
        {
          var k := if m < j then m else m + 1;
          assert c[m] == bs[i][k] && k != j;
        }
      } else {
        IndexOfUnlinked(bs[i], j, other);
      }
    }
  }

  /**
   * In a well-formed bucket array a lookup is exact: it finds `v` for `key`
   * precisely when some node anywhere in the table stores `key` with `v`.
   */
  lemma LookupFindsStoredEntry(bs: Buckets, key: Key, v: Int32)
    requires |bs| > 0 && WellFormed(bs)
    ensures Lookup(bs, key) == Some(v) <==> exists i, j :: 0 <= i < |bs| && 0 <= j < |bs[i]| && bs[i][j] == Entry(key, v)
  {
    var h := Hash(key, |bs|);
    var r := IndexOf(bs[h], key);
    if Lookup(bs, key) == Some(v) {
      assert bs[h][r] == Entry(key, v);
    }
    if exists i, j :: 0 <= i < |bs| && 0 <= j < |bs[i]| && bs[i][j] == Entry(key, v) {
      var i, j :| 0 <= i < |bs| && 0 <= j < |bs[i]| && bs[i][j] == Entry(key, v);
      assert i == h;
      if 0 <= r {
        assert bs[h][j].key == key;
      }
    }
  }
}
