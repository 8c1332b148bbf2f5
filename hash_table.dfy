/**
 * The separate-chaining hash table of tests/graphs/correct/hash_table.c.
 * A `Table` owns an array of bucket chains, its bucket count and its node
 * count; the C functions that take a `HashTable*` become module-level
 * methods taking a `Table?`, so that the NULL checks of the source are
 * modelled.  A chain of linked nodes is the sequence of its nodes, head
 * first; walking `node = node->next` is walking that sequence.
 */
module HashTable {
  import opened CTypes
  import opened HashChains

  /** The heap object of the C table: bucket array, `size` and `count`. */
  class Table {
    var buckets: array<seq<Entry>>
    var size: SizeT
    var count: nat

    /** The table invariant: `size` buckets, each node in its key's bucket, keys distinct, `count` nodes. */
    ghost predicate Valid()
      reads this, buckets
    {
      && buckets.Length == size
      && WellFormed(buckets[..])
      && count == TotalNodes(buckets[..])
    }

    /** A table of `size` buckets, every one empty (the zeroed block of `calloc`). */
    constructor (size: SizeT)
      ensures Valid() && fresh(buckets)
      ensures this.size == size && count == 0
      ensures forall i :: 0 <= i < size ==> buckets[i] == []
    {
      buckets := new seq<Entry>[size](_ => []);
      this.size := size;
      count := 0;
      new;
      TotalNodesAllEmpty(buckets[..]);
    }
  }

  /** The target of an `int*` out-parameter. */
  class IntRef {
    var value: Int32

    /** A caller's `int` variable, holding `v` before it is passed by address. */
    constructor (v: Int32)
      ensures value == v
    {
      value := v;
    }
  }

  /**
   * The string hash, computed as the source does: a loop over the key's
   * characters in 64-bit `size_t` arithmetic.  Below MaxTableSize the
   * running value never wraps, so it equals the fold Hash.
   */
  method HashFunction(key: Key, tableSize: SizeT) returns (hash: SizeT)
    requires Hashable(tableSize)
    ensures hash == Hash(key, tableSize)
    ensures hash < tableSize
    ensures key == [] ==> hash == 0
  {
    hash := 0;
    var i := 0;
    while i < |key|
      invariant 0 <= i <= |key|
      invariant hash == Hash(key[..i], tableSize)
    {
      assert key[..i + 1][..i] == key[..i];
      hash := ((hash * Prime + key[i] as int) % SizeModulus) % tableSize;
      i := i + 1;
    }
    assert key[..|key|] == key;
  }

  /**
   * The chain walk shared by insert, get and remove: follow the nodes from
   * the bucket head until one holds `key` (compared with `strcmp`), giving
   * its position, or -1 when the walk reaches the end of the chain.
   */
  method FindNode(chain: seq<Entry>, key: Key) returns (j: int)
    ensures j == IndexOf(chain, key)
    ensures 0 <= j ==> j < |chain| && chain[j].key == key
    ensures j < 0 <==> forall m :: 0 <= m < |chain| ==> chain[m].key != key
  {
    j := 0;
    while j < |chain|
      invariant 0 <= j <= |chain|
      invariant forall m :: 0 <= m < j ==> chain[m].key != key
    {
      if chain[j].key == key {
        return j;
      }
      j := j + 1;
    }
    return -1;
  }

  /** `hash_table_create`: NULL when an allocation fails, otherwise a fresh, empty table. */
  method Create(size: SizeT, allocOk: bool) returns (table: Table?)
    ensures table != null <==> allocOk
    ensures table != null ==> fresh(table) && fresh(table.buckets) && table.Valid()
    ensures table != null ==> table.size == size && table.count == 0
    ensures table != null ==> forall i :: 0 <= i < size ==> table.buckets[i] == []
  {
    if !allocOk {
      return null;
    }
    table := new Table(size);
  }

  /**
   * `hash_table_destroy`: every node is released and every bucket left
   * empty; the table must not be used afterwards.
   */
  method Destroy(table: Table?)
    requires table != null ==> table.Valid()
    modifies if table != null then {table.buckets} else {}
    ensures table != null ==> forall i :: 0 <= i < table.buckets.Length ==> table.buckets[i] == []
    ensures table != null ==> TotalNodes(table.buckets[..]) == 0
  {
    if table == null {
      return;
    }
    var i := 0;
    while i < table.size
      invariant 0 <= i <= table.size
      invariant forall m :: 0 <= m < i ==> table.buckets[m] == []
    {
      table.buckets[i] := [];
      i := i + 1;
    }
    TotalNodesAllEmpty(table.buckets[..]);
  }

  /**
   * `hash_table_insert`: -1 for a NULL table or key, or when allocating a
   * new node fails; otherwise 0, with the key's node updated in place or a
   * new node at the head of its bucket.
   */
  method Insert(table: Table?, key: Option<Key>, value: Int32, allocOk: bool) returns (status: int)
    requires table != null ==> table.Valid()
    requires table != null && key.Some? ==> Hashable(table.size)
    modifies if table != null then {table, table.buckets} else {}
    ensures table != null ==> table.Valid() && table.buckets == old(table.buckets) && table.size == old(table.size)
    ensures status == 0 || status == -1
    ensures status == 0 <==> table != null && key.Some? && (allocOk || old(Lookup(table.buckets[..], key.value)).Some?)
    ensures status == 0 ==> table.buckets[..] == Inserted(old(table.buckets[..]), key.value, value)
    ensures status == 0 ==> Lookup(table.buckets[..], key.value) == Some(value)
    ensures status == 0 ==> forall other :: other != key.value ==>
              Lookup(table.buckets[..], other) == old(Lookup(table.buckets[..], other))
    ensures status == 0 ==> table.count == old(table.count) + (if old(Lookup(table.buckets[..], key.value)).None? then 1 else 0)
    ensures status != 0 && table != null ==> table.buckets[..] == old(table.buckets[..]) && table.count == old(table.count)
  {
    if table == null || key.None? {
      return -1;
    }
    var k := key.value;
    ghost var before := table.buckets[..];
    var index := HashFunction(k, table.size);
    var chain := table.buckets[index];
    var j := FindNode(chain, k);
    if 0 <= j {
      table.buckets[index] := chain[j := Entry(k, value)];
      assert table.buckets[..] == Inserted(before, k, value);
      InsertedWellFormed(before, k, value);
      InsertedTotal(before, k, value);
      InsertLookups(before, k, value);
      return 0;
    }
    if !allocOk {
      return -1;
    }
    table.buckets[index] := [Entry(k, value)] + chain;
    table.count := table.count + 1;
    assert table.buckets[..] == Inserted(before, k, value);
    InsertedWellFormed(before, k, value);
    InsertedTotal(before, k, value);
    InsertLookups(before, k, value);
    return 0;
  }

  /** LookupInserted for every key at once. */
  lemma InsertLookups(bs: Buckets, key: Key, value: Int32)
    requires |bs| > 0
    ensures Lookup(Inserted(bs, key, value), key) == Some(value)
    ensures forall other :: other != key ==> Lookup(Inserted(bs, key, value), other) == Lookup(bs, other)
  {
    LookupInserted(bs, key, value, key);
    forall other | other != key
      ensures Lookup(Inserted(bs, key, value), other) == Lookup(bs, other)
    {
      LookupInserted(bs, key, value, other);
    }
  }

  /**
   * `hash_table_get`: -1 for a NULL table, key or out-parameter, or an absent
   * key; otherwise 0, with the key's value written through the out-parameter.
   * The table is only read.
   */
  method Get(table: Table?, key: Option<Key>, out: IntRef?) returns (status: int)
    requires table != null ==> table.Valid()
    requires table != null && key.Some? && out != null ==> Hashable(table.size)
    modifies out
    ensures status == 0 || status == -1
    ensures status == 0 <==> table != null && key.Some? && out != null && Lookup(table.buckets[..], key.value).Some?
    ensures status == 0 ==> out.value == Lookup(table.buckets[..], key.value).value
    ensures status != 0 && out != null ==> out.value == old(out.value)
  {
    if table == null || key.None? || out == null {
      return -1;
    }
    var k := key.value;
    var index := HashFunction(k, table.size);
    var chain := table.buckets[index];
    var j := FindNode(chain, k);
    if j < 0 {
      return -1;
    }
    out.value := chain[j].value;
    return 0;
  }

  /**
   * `hash_table_remove`: -1 for a NULL table or key, or an absent key;
   * otherwise 0, with the key's node unlinked (from the bucket head, or
   * from its predecessor) and the count decremented.
   */
  method Remove(table: Table?, key: Option<Key>) returns (status: int)
    requires table != null ==> table.Valid()
    requires table != null && key.Some? ==> Hashable(table.size)
    modifies if table != null then {table, table.buckets} else {}
    ensures table != null ==> table.Valid() && table.buckets == old(table.buckets) && table.size == old(table.size)
    ensures status == 0 || status == -1
    ensures status == 0 <==> table != null && key.Some? && old(Lookup(table.buckets[..], key.value)).Some?
    ensures table != null && key.Some? ==> table.buckets[..] == Removed(old(table.buckets[..]), key.value)
    ensures table != null && key.Some? ==> Lookup(table.buckets[..], key.value) == None
    ensures table != null && key.Some? ==> forall other :: other != key.value ==>
              Lookup(table.buckets[..], other) == old(Lookup(table.buckets[..], other))
    ensures table != null ==> table.count == old(table.count) - (if status == 0 then 1 else 0)
    ensures table != null && key.None? ==> table.buckets[..] == old(table.buckets[..])
  {
    if table == null || key.None? {
      return -1;
    }
    var k := key.value;
    ghost var before := table.buckets[..];
    var index := HashFunction(k, table.size);
    var chain := table.buckets[index];
    var j := FindNode(chain, k);
    if j < 0 {
      RemoveLookups(before, k);
      return -1;
    }
    UnlinkFound(before, k, j);
    if j == 0 {
      table.buckets[index] := chain[1..];
      assert chain[1..] == chain[..0] + chain[1..];
    } else {
      table.buckets[index] := chain[..j] + chain[j + 1..];
    }
    table.count := table.count - 1;
    assert table.buckets[..] == before[index := chain[..j] + chain[j + 1..]];
    return 0;
  }

  /** What unlinking the first node of `key`, found at position `j` of its chain, does to the buckets. */
  lemma UnlinkFound(bs: Buckets, key: Key, j: nat)
    requires |bs| > 0 && WellFormed(bs)
    requires IndexOf(bs[Hash(key, |bs|)], key) == j
    ensures var i := Hash(key, |bs|);
            Removed(bs, key) == bs[i := bs[i][..j] + bs[i][j + 1..]]
    ensures Lookup(bs, key).Some?
    ensures TotalNodes(Removed(bs, key)) == TotalNodes(bs) - 1
    ensures WellFormed(Removed(bs, key))
    ensures Lookup(Removed(bs, key), key) == None
    ensures forall other :: other != key ==> Lookup(Removed(bs, key), other) == Lookup(bs, other)
  {
    RemovedTotal(bs, key);
    RemovedWellFormed(bs, key);
    RemoveLookups(bs, key);
  }

  /** LookupRemoved for every key at once. */
  lemma RemoveLookups(bs: Buckets, key: Key)
    requires |bs| > 0 && WellFormed(bs)
    ensures Lookup(Removed(bs, key), key) == None
    ensures forall other :: other != key ==> Lookup(Removed(bs, key), other) == Lookup(bs, other)
  {
    LookupRemoved(bs, key, key);
    forall other | other != key
      ensures Lookup(Removed(bs, key), other) == Lookup(bs, other)
    {
      LookupRemoved(bs, key, other);
    }
  }

  /** `hash_table_size`: the number of stored nodes, or 0 for a NULL table. */
  function Size(table: Table?): (n: nat)
    reads if table != null then {table, table.buckets} else {}
    requires table != null ==> table.Valid()
    ensures table == null ==> n == 0
    ensures table != null ==> n == TotalNodes(table.buckets[..])
  {
    if table != null then table.count else 0
  }
}
