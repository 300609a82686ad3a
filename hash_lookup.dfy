/** The hash lookup executor: a sample table of at most ten string pairs is
    built with chaining (a bucket per hash value, in insertion order), then
    the key is hashed and its bucket scanned. */
module HashLookup {
  import opened Types

  /** The description GetMetadata reports. */
  const Description := "A search algorithm that uses a hash table to achieve O(1) average time complexity for lookups."

  function Metadata(): Descriptor
  {
    Descriptor(
      "hash_lookup", "Hash Lookup", Searching,
      Description,
      "Time: O(1) average, O(n) worst case, Space: O(n)",
      [ ParamSpec("table_size", "int", "Size of the hash table", IntV(10), Some(5), Some(50), true),
        ParamSpec("key", "string", "Key to search for", StrV("key5"), None, None, true) ])
  }

  /** ValidateParameters: only `table_size` is checked; `key` may be any string. */
  function ValidateParameters(params: Params): (r: Outcome)
    ensures r.Pass? <==> 5 <= IntParam(params, "table_size", 10) <= 50
  {
    CheckIntRange(params, "table_size", 10, 5, 50, "table_size must be between 5 and 50")
  }

  datatype HashEntry = HashEntry(key: string, value: string)

  /** The sum of the code points of `s`. */
  function CodePointSum(s: string): nat
  {
    if |s| == 0 then 0 else CodePointSum(s[..|s| - 1]) + s[|s| - 1] as int
  }

  /** The hash of `key` in a table of `n` buckets: its code-point sum
      modulo `n`. */
  function Hash(key: string, n: int): int
    requires n > 0
  {
    CodePointSum(key) % n
  }

  lemma MulPositive(k: int, n: int)
    requires k >= 1 && n > 0
    ensures k * n >= n
  {
  }

  /** Multiples of `n` lie at least `n` apart. */
  lemma MulGap(a: int, b: int, n: int)
    requires a > b && n > 0
    ensures a * n >= b * n + n
  {
    MulPositive(a - b, n);
    assert (a - b) * n == a * n - b * n;
  }

  /** Euclidean division has one remainder: if `x == k * n + m` with
      `0 <= m < n`, then `x % n == m`. */
  lemma ModUnique(x: int, k: int, m: int, n: int)
    requires n > 0 && 0 <= m < n && x == k * n + m
    ensures x % n == m
  {
    var k', m' := x / n, x % n;
    assert x == k' * n + m';
    if k' > k {
      MulGap(k', k, n);
    } else if k' < k {
      MulGap(k, k', n);
    }
  }

  /** Adding `n` does not change the remainder modulo `n`. */
  lemma ShiftMod(z: int, n: int)
    requires n > 0
    ensures (z + n) % n == z % n
  {
    var d := z / n;
    assert z == d * n + z % n;
    assert (d + 1) * n == d * n + n;
    ModUnique(z + n, d + 1, z % n, n);
  }

  /** Reducing the left summand first does not change the remainder. */
  lemma {:induction false} ModAdd(a: nat, c: int, n: int)
    requires n > 0
    ensures (a % n + c) % n == (a + c) % n
    decreases a
  {
    if a < n {
      ModUnique(a, 0, a, n);
    } else {
      ModAdd(a - n, c, n);
      ShiftMod(a - n, n);
      ShiftMod(a - n + c, n);
    }
  }

  /** Reducing after every character gives the hash of the longer key: the
      step of both hash loops. */
  lemma ReduceStep(p: string, c: char, n: int)
    requires n > 0
    ensures (Hash(p, n) + c as int) % n == Hash(p + [c], n)
  {
    assert (p + [c])[..|p|] == p;
    ModAdd(CodePointSum(p), c as int, n);
  }

  /** hashFunction: the running sum is reduced modulo the table size after
      each character. */
  method HashFunction(key: string, tableSize: int) returns (hash: int)
    requires tableSize > 0
    ensures hash == Hash(key, tableSize)
    ensures 0 <= hash < tableSize
  {
    hash := 0;
    for i := 0 to |key|
      invariant hash == Hash(key[..i], tableSize)
    {
      ReduceStep(key[..i], key[i], tableSize);
      assert key[..i + 1] == key[..i] + [key[i]];
      hash := (hash + key[i] as int) % tableSize;
    }
    assert key[..|key|] == key;
  }

  const SampleKeys: seq<string> := ["key1", "key2", "key3", "key4", "key5", "key6", "key7", "key8", "key9", "key10"]
  const SampleValues: seq<string> := ["value1", "value2", "value3", "value4", "value5", "value6", "value7", "value8", "value9", "value10"]

  /** The first `i` sample pairs. */
  function Entries(i: int): (s: seq<HashEntry>)
    requires 0 <= i <= 10
    ensures |s| == i
  {
    if i == 0 then [] else Entries(i - 1) + [HashEntry(SampleKeys[i - 1], SampleValues[i - 1])]
  }

  /** How many sample pairs a table of `size` buckets receives. */
  function SampleCount(size: int): (c: nat)
    ensures c <= 10 && (size > 0 ==> c >= 1)
    ensures c == size || (c == 10 && size >= 10) || (c == 0 && size <= 0)
  {
    if size <= 0 then 0 else if size < 10 then size else 10
  }

  /** The pairs inserted into a table of `size` buckets. */
  function Inserted(size: int): seq<HashEntry>
  {
    Entries(SampleCount(size))
  }

  /** The entries of `entries` whose key hashes to `h`, in their order. */
  function Bucket(entries: seq<HashEntry>, h: int, n: int): seq<HashEntry>
    requires n > 0
  {
    if |entries| == 0 then []
    else Bucket(entries[..|entries| - 1], h, n) +
         (if Hash(entries[|entries| - 1].key, n) == h then [entries[|entries| - 1]] else [])
  }

  /** A bucket holds exactly the entries that hash to it. */
  lemma {:induction false} BucketMembers(entries: seq<HashEntry>, h: int, n: int)
    requires n > 0
    ensures forall e :: e in Bucket(entries, h, n) <==> e in entries && Hash(e.key, n) == h
  {
    if |entries| > 0 {
      var init := entries[..|entries| - 1];
      BucketMembers(init, h, n);
      assert entries == init + [entries[|entries| - 1]];
    }
  }

  /** Appending an entry extends the bucket of its hash only. */
  lemma BucketSnoc(entries: seq<HashEntry>, e: HashEntry, h: int, n: int)
    requires n > 0
    ensures Bucket(entries + [e], h, n) == Bucket(entries, h, n) + (if Hash(e.key, n) == h then [e] else [])
  {
    assert (entries + [e])[..|entries|] == entries;
  }

  /** The table generateHashTable is to build for `size` buckets. */
  ghost predicate Holds(table: map<int, seq<HashEntry>>, entries: seq<HashEntry>, size: int)
    requires size > 0
  {
    && (forall h {:trigger h in table} :: h in table <==> Bucket(entries, h, size) != [])
    && (forall h {:trigger table[h]} :: h in table ==> table[h] == Bucket(entries, h, size))
  }

  /** Appending a pair to the bucket of its hash keeps Holds. */
  lemma Append(table: map<int, seq<HashEntry>>, entries: seq<HashEntry>, e: HashEntry, size: int)
    requires size > 0 && Holds(table, entries, size)
    ensures Holds(table[Hash(e.key, size) := (if Hash(e.key, size) in table then table[Hash(e.key, size)] else []) + [e]],
                  entries + [e], size)
  {
    var hash := Hash(e.key, size);
    var t := table[hash := (if hash in table then table[hash] else []) + [e]];
    forall h
      ensures h in t <==> Bucket(entries + [e], h, size) != []
      ensures h in t ==> t[h] == Bucket(entries + [e], h, size)
    {
      BucketSnoc(entries, e, h, size);
    }
  }

  /** generateHashTable: inserts the first `size` sample pairs (at most
      ten), each appended to the bucket of its hash, computed inline. */
  method GenerateHashTable(size: int) returns (table: map<int, seq<HashEntry>>)
    ensures size > 0 ==> Holds(table, Inserted(size), size)
    ensures size <= 0 ==> table == map[]
  {
    table := map[];
    var i := 0;
    while i < |SampleKeys|
      invariant 0 <= i <= SampleCount(size)
      invariant size > 0 ==> Holds(table, Entries(i), size)
      invariant size <= 0 ==> table == map[]
    {
      if i >= size {
        break;
      }
      var key := SampleKeys[i];
      var hash := HashFunction(key, size);
      var entry := HashEntry(key, SampleValues[i]);
      Append(table, Entries(i), entry, size);
      table := table[hash := (if hash in table then table[hash] else []) + [entry]];
      i := i + 1;
    }
    assert i == SampleCount(size);
  }

  /** Every bucket of the generated table sits at an index below `size`,
      and every inserted pair is in the bucket of its key's hash. */
  lemma TableShape(table: map<int, seq<HashEntry>>, entries: seq<HashEntry>, size: int)
    requires size > 0 && Holds(table, entries, size)
    ensures forall h :: h in table ==> 0 <= h < size
    ensures forall e :: e in entries ==> Hash(e.key, size) in table && e in table[Hash(e.key, size)]
  {
    forall h | h in table
      ensures 0 <= h < size
    {
      BucketMembers(entries, h, size);
      var e := table[h][0];
      assert e in Bucket(entries, h, size);
    }
    forall e | e in entries
      ensures Hash(e.key, size) in table && e in table[Hash(e.key, size)]
    {
      BucketMembers(entries, Hash(e.key, size), size);
    }
  }

  /** The scan of one bucket: a CheckEntry step per entry looked at, then
      Found at the first entry with the key. */
  method ScanBucket(bucket: seq<HashEntry>, key: string) returns (found: bool, value: string, steps: seq<Action>)
    ensures found ==> HashEntry(key, value) in bucket
    ensures found ==> exists i :: 0 <= i < |bucket| && bucket[i] == HashEntry(key, value) && Uniform(steps, CheckEntry, i + 1)
    ensures !found ==> forall e :: e in bucket ==> e.key != key
    ensures !found ==> Uniform(steps, CheckEntry, |bucket|)
  {
    steps := [];
    for i := 0 to |bucket|
      invariant forall k :: 0 <= k < i ==> bucket[k].key != key
      invariant Uniform(steps, CheckEntry, i)
    {
      steps := steps + [CheckEntry];
      if bucket[i].key == key {
        return true, bucket[i].value, steps;
      }
    }
    found, value := false, "";
  }

  /** The result map of a lookup: `found`, `key`, `value` (nil when not
      found), `hash` and, when found, `collisions`. */
  datatype LookupResult = LookupResult(found: bool, key: string, value: Option<string>, hash: int, collisions: Option<int>)

  /** The lookup part of Execute: check the bucket at `hash`, if there is
      one, entry by entry; `collisions` is the bucket's length less one. In
      a table that holds `entries`, the key is found exactly when a pair of
      `entries` has it, and its bucket is that of the pairs with its hash. */
  method Lookup(table: map<int, seq<HashEntry>>, ghost entries: seq<HashEntry>, size: int, key: string, hash: int)
    returns (r: LookupResult, steps: seq<Action>)
    requires size > 0 && Holds(table, entries, size) && hash == Hash(key, size)
    ensures r.key == key && r.hash == hash
    ensures r.found ==> r.value.Some? && HashEntry(key, r.value.value) in entries
    ensures r.found ==> r.collisions == Some(|Bucket(entries, hash, size)| - 1)
    ensures !r.found ==> r.value == None && r.collisions == None
    ensures !r.found ==> forall e :: e in entries ==> e.key != key
    ensures |steps| > 0 && steps[|steps| - 1] == if r.found then Found else NotFound
  {
    BucketMembers(entries, hash, size);
    if hash in table {
      var bucket := table[hash];
      var found, v, scanSteps := ScanBucket(bucket, key);
      steps := [CheckBucket] + scanSteps;
      if found {
        return LookupResult(true, key, Some(v), hash, Some(|bucket| - 1)), steps + [Found];
      }
    } else {
      steps := [];
    }
    TableShape(table, entries, size);
    r, steps := LookupResult(false, key, None, hash, None), steps + [NotFound];
  }

  /** Execute: `table_size` (default 10) and `key` (default "key5"); the
      `input` argument is not read. */
  method Execute(params: Params) returns (r: LookupResult, actions: seq<Action>)
    requires ValidateParameters(params).Pass?
    ensures |actions| >= 3 && actions[0] == Initialize && actions[1] == CalculateHash
    ensures actions[|actions| - 1] == if r.found then Found else NotFound
    ensures r.key == StrParam(params, "key", "key5")
    ensures r.hash == Hash(r.key, IntParam(params, "table_size", 10)) && 0 <= r.hash < IntParam(params, "table_size", 10)
    ensures r.found ==> r.value.Some? && HashEntry(r.key, r.value.value) in Inserted(IntParam(params, "table_size", 10))
    ensures r.found ==> r.collisions == Some(|Bucket(Inserted(IntParam(params, "table_size", 10)), r.hash, IntParam(params, "table_size", 10))| - 1)
    ensures !r.found ==> r.value == None && r.collisions == None
    ensures !r.found ==> forall e :: e in Inserted(IntParam(params, "table_size", 10)) ==> e.key != r.key
  {
    var tableSize := IntParam(params, "table_size", 10);
    var key := StrParam(params, "key", "key5");
    var table := GenerateHashTable(tableSize);
    var hash := HashFunction(key, tableSize);
    var steps;
    r, steps := Lookup(table, Inserted(tableSize), tableSize, key, hash);
    actions := [Initialize, CalculateHash] + steps;
    assert actions[|actions| - 1] == steps[|steps| - 1];
  }
}
