/**
 * The visited set of hashset.c: a fixed array of 10000 chained buckets indexed by a
 * 32-bit multiply/xor-shift hash. Buckets are append-only arrays that start with two
 * slots and double when full; lookup is an exact byte comparison along one bucket.
 * `Contents` is the set of keys the table stands for.
 */
module Hashset {
  import opened Bytes

  const NumBuckets: nat := 10000
  const Seed: bv32 := 0x12345678
  const Modulus: nat := 0x1_0000_0000

  /**
   * One round of `hash` on byte `b`, in 32-bit unsigned arithmetic: xor the byte in,
   * multiply by the constant 0x5bd1e995, xor-shift right by 15.
   */
  function Mix(h: bv32, b: Byte): bv32
  {
    var x := (h ^ (b as bv32)) * 0x5bd1e995;
    x ^ (x >> 15)
  }

  /** `hash`: the seed, mixed with each byte of the key in order. */
  function Hash(key: CString): bv32
  {
    if key == [] then Seed else Mix(Hash(key[..|key| - 1]), key[|key| - 1])
  }

  /** The loop of `hash`, one byte at a time from the front of the key. */
  method ComputeHash(key: CString) returns (h: bv32)
    ensures h == Hash(key)
  {
    h := Seed;
    var i := 0;
    while i < |key|
      invariant 0 <= i <= |key|
      invariant h == Hash(key[..i])
    {
      assert key[..i + 1][..i] == key[..i];
      h := Mix(h, key[i]);
      i := i + 1;
    }
    assert key[..i] == key;
  }

  /** Hashing one more byte is one more round of mixing. */
  lemma HashSnoc(key: CString, b: Byte)
    requires b != Nul
    ensures Hash(key + [b]) == Mix(Hash(key), b)
  {
    assert (key + [b])[..|key|] == key;
  }

  /** Reference values of the hash: the empty key gives the seed itself. */
  lemma HashValues()
    ensures Hash([]) == 0x12345678
    ensures Hash(['a' as int]) == 0x683b0dfa
    ensures Hash(['P' as int, 'a' as int, 'r' as int, 'i' as int, 's' as int]) == 0xe14dab60
  {
    HashOfA();
    HashOfParis();
  }

  lemma HashOfA()
    ensures Hash(['a' as int]) == 0x683b0dfa
  {
    var k0: CString := [];
    HashSnoc(k0, 'a' as int);
    assert k0 + ['a' as int] == ['a' as int];
    assert Mix(Seed, 'a' as int) == 0x683b0dfa;
  }

  lemma HashOfParis()
    ensures Hash(['P' as int, 'a' as int, 'r' as int, 'i' as int, 's' as int]) == 0xe14dab60
  {
    var k0: CString := [];
    var k1 := k0 + ['P' as int];
    var k2 := k1 + ['a' as int];
    var k3 := k2 + ['r' as int];
    var k4 := k3 + ['i' as int];
    var k5 := k4 + ['s' as int];
    HashSnoc(k0, 'P' as int);
    HashSnoc(k1, 'a' as int);
    HashSnoc(k2, 'r' as int);
    HashSnoc(k3, 'i' as int);
    HashSnoc(k4, 's' as int);
    ParisRounds();
    assert k5 == ['P' as int, 'a' as int, 'r' as int, 'i' as int, 's' as int];
  }

  /** The five mixing rounds of the key `Paris`. */
  lemma ParisRounds()
    ensures Mix(Seed, 'P' as int) == 0xc9891e59
    ensures Mix(0xc9891e59, 'a' as int) == 0xad06d497
    ensures Mix(0xad06d497, 'r' as int) == 0x22b3132f
    ensures Mix(0x22b3132f, 'i' as int) == 0xcceb746b
    ensures Mix(0xcceb746b, 's' as int) == 0xe14dab60
  {
  }

  /** `hash(key) % HASHSET_NUM_BUCKETS`: the bucket a key lives in, for insert and search alike. */
  function BucketIndex(key: CString): (i: nat)
    ensures i < NumBuckets
  {
    (Hash(key) as int) % NumBuckets
  }

  /** `struct bucket`: the stored keys (its first `length` slots) and the allocated slot count. */
  datatype Bucket = Bucket(elems: seq<CString>, capacity: nat)

  /** Two times a power of two: the capacities a bucket can reach by doubling from 2. */
  predicate IsCapacity(c: nat)
    decreases c
  {
    c == 2 || (c > 2 && c % 2 == 0 && IsCapacity(c / 2))
  }

  /** A bucket's array is never overfull and has grown only by doubling when full. */
  predicate WellSized(b: Bucket)
  {
    IsCapacity(b.capacity) && |b.elems| <= b.capacity && (b.capacity == 2 || b.capacity < 2 * |b.elems|)
  }

  /** `new_bucket`: two empty slots. */
  function NewBucket(): (b: Bucket)
    ensures b.elems == [] && b.capacity == 2 && WellSized(b)
  {
    Bucket([], 2)
  }

  /** `bucket_insert`: append the key, doubling the capacity first when every slot is taken. */
  function BucketInsert(b: Bucket, key: CString): (r: Bucket)
    ensures r.elems == b.elems + [key]
    ensures WellSized(b) ==> WellSized(r)
    ensures WellSized(b) ==> if |b.elems| == b.capacity then r.capacity == 2 * b.capacity else r.capacity == b.capacity
  {
    var capacity := if |b.elems| >= b.capacity then 2 * b.capacity else b.capacity;
    assert (2 * b.capacity) / 2 == b.capacity;
    Bucket(b.elems + [key], capacity)
  }

  /** `hashset_t`: one optional bucket per index; NULL is `None`. */
  datatype HashSet = HashSet(buckets: seq<Option<Bucket>>)

  /** The keys stored in an optional bucket. */
  function Elems(o: Option<Bucket>): seq<CString>
  {
    match o
    case None => []
    case Some(b) => b.elems
  }

  /** A bucket at index `i` is either absent or well sized, non-empty, and holds only keys that hash to `i`. */
  predicate BucketValid(o: Option<Bucket>, i: nat)
  {
    match o
    case None => true
    case Some(b) =>
      WellSized(b) && |b.elems| >= 1 && forall j :: 0 <= j < |b.elems| ==> BucketIndex(b.elems[j]) == i
  }

  predicate Valid(hs: HashSet)
  {
    |hs.buckets| == NumBuckets && forall i {:trigger BucketValid(hs.buckets[i], i)} :: 0 <= i < NumBuckets ==> BucketValid(hs.buckets[i], i)
  }

  /** The set of keys the table represents. */
  ghost function Contents(hs: HashSet): set<CString>
  {
    KeysOf(hs.buckets)
  }

  /** The keys held by a prefix of the bucket array. */
  ghost function KeysOf(bs: seq<Option<Bucket>>): set<CString>
  {
    if bs == [] then {} else KeysOf(bs[..|bs| - 1]) + AsSet(Elems(bs[|bs| - 1]))
  }

  /** A key is among the represented ones exactly when some bucket holds it. */
  lemma {:induction false} KeysOfMember(bs: seq<Option<Bucket>>, key: CString)
    ensures key in KeysOf(bs) <==> exists i :: 0 <= i < |bs| && key in Elems(bs[i])
  {
    if bs != [] {
      var init := bs[..|bs| - 1];
      KeysOfMember(init, key);
      if exists i :: 0 <= i < |bs| && key in Elems(bs[i]) {
        var i :| 0 <= i < |bs| && key in Elems(bs[i]);
        if i < |bs| - 1 {
          assert init[i] == bs[i];
        }
      }
      if exists i :: 0 <= i < |init| && key in Elems(init[i]) {
        var i :| 0 <= i < |init| && key in Elems(init[i]);
        assert init[i] == bs[i];
      }
    }
  }

  /** In a valid table a key is represented exactly when its own bucket holds it. */
  lemma ContentsByBucket(hs: HashSet, key: CString)
    requires Valid(hs)
    ensures key in Contents(hs) <==> key in Elems(hs.buckets[BucketIndex(key)])
  {
    KeysOfMember(hs.buckets, key);
    if key in Contents(hs) {
      var i :| 0 <= i < |hs.buckets| && key in Elems(hs.buckets[i]);
      assert BucketValid(hs.buckets[i], i);
    }
  }

  /** Sum of a weight over the buckets of a prefix of the array. */
  function Sum(bs: seq<Option<Bucket>>, w: Option<Bucket> -> int): int
  {
    if bs == [] then 0 else Sum(bs[..|bs| - 1], w) + w(bs[|bs| - 1])
  }

  function Size(o: Option<Bucket>): int { |Elems(o)| }
  function Used(o: Option<Bucket>): int { if o.Some? then 1 else 0 }

  /** Number of stored entries, duplicates included: one per call of `hashset_insert`. */
  function Load(hs: HashSet): int { Sum(hs.buckets, Size) }

  /** Number of non-NULL buckets. */
  function Occupied(hs: HashSet): int { Sum(hs.buckets, Used) }

  /** Extending a prefix by one bucket adds that bucket's weight. */
  lemma SumStep(bs: seq<Option<Bucket>>, i: nat, w: Option<Bucket> -> int)
    requires i < |bs|
    ensures Sum(bs[..i + 1], w) == Sum(bs[..i], w) + w(bs[i])
  {
    assert bs[..i + 1][..i] == bs[..i];
  }

  /** Replacing one bucket changes a sum by the difference of its weights. */
  lemma {:induction false} SumUpdate(bs: seq<Option<Bucket>>, i: nat, x: Option<Bucket>, w: Option<Bucket> -> int)
    requires i < |bs|
    ensures Sum(bs[i := x], w) == Sum(bs, w) - w(bs[i]) + w(x)
    decreases |bs|
  {
    var n := |bs|;
    if i == n - 1 {
      assert bs[i := x][..n - 1] == bs[..n - 1];
    } else {
      assert bs[i := x][..n - 1] == bs[..n - 1][i := x];
      SumUpdate(bs[..n - 1], i, x, w);
    }
  }

  /** `new_hashset`: every bucket NULL. */
  function NewHashSet(): (hs: HashSet)
    ensures Valid(hs) && Contents(hs) == {} && Load(hs) == 0 && Occupied(hs) == 0
  {
    var bs := seq(NumBuckets, i => None);
    SumOfEmpty(bs);
    forall k: CString ensures k !in KeysOf(bs) {
      KeysOfMember(bs, k);
    }
    HashSet(bs)
  }

  lemma {:induction false} SumOfEmpty(bs: seq<Option<Bucket>>)
    requires forall i :: 0 <= i < |bs| ==> bs[i] == None
    ensures Sum(bs, Size) == 0 && Sum(bs, Used) == 0
  {
    if bs != [] {
      SumOfEmpty(bs[..|bs| - 1]);
    }
  }

  /**
   * `hashset_insert`: create the key's bucket if it is NULL, then append. The key is
   * then represented, nothing else changes, and exactly one entry is added.
   */
  function Insert(hs: HashSet, key: CString): (r: HashSet)
    requires Valid(hs)
    ensures Valid(r)
    ensures Contents(r) == Contents(hs) + {key}
    ensures Elems(r.buckets[BucketIndex(key)]) == Elems(hs.buckets[BucketIndex(key)]) + [key]
    ensures forall i :: 0 <= i < NumBuckets && i != BucketIndex(key) ==> r.buckets[i] == hs.buckets[i]
    ensures Load(r) == Load(hs) + 1
    ensures Occupied(r) == Occupied(hs) + (if hs.buckets[BucketIndex(key)].None? then 1 else 0)
  {
    var i := BucketIndex(key);
    var b := match hs.buckets[i] case None => NewBucket() case Some(b) => b;
    var r := HashSet(hs.buckets[i := Some(BucketInsert(b, key))]);
    SumUpdate(hs.buckets, i, Some(BucketInsert(b, key)), Size);
    SumUpdate(hs.buckets, i, Some(BucketInsert(b, key)), Used);
    InsertValid(hs, key, b);
    InsertContents(hs, r, key);
    r
  }

  /** Appending a key to its own bucket (a fresh one if the slot was NULL) keeps the table valid. */
  lemma InsertValid(hs: HashSet, key: CString, b: Bucket)
    requires Valid(hs)
    requires b == match hs.buckets[BucketIndex(key)] case None => NewBucket() case Some(b) => b
    ensures Valid(HashSet(hs.buckets[BucketIndex(key) := Some(BucketInsert(b, key))]))
  {
    var i := BucketIndex(key);
    var bs := hs.buckets[i := Some(BucketInsert(b, key))];
    assert BucketValid(hs.buckets[i], i);
    forall j | 0 <= j < NumBuckets ensures BucketValid(bs[j], j) {
      if j != i {
        assert BucketValid(hs.buckets[j], j);
      }
    }
  }

  lemma InsertContents(hs: HashSet, r: HashSet, key: CString)
    requires Valid(hs) && Valid(r)
    requires Elems(r.buckets[BucketIndex(key)]) == Elems(hs.buckets[BucketIndex(key)]) + [key]
    requires forall i :: 0 <= i < NumBuckets && i != BucketIndex(key) ==> r.buckets[i] == hs.buckets[i]
    ensures Contents(r) == Contents(hs) + {key}
  {
    forall k: CString ensures k in Contents(r) <==> k in Contents(hs) + {key} {
      ContentsByBucket(hs, k);
      ContentsByBucket(r, k);
    }
  }

  /** `hashset_search`: hash to the key's bucket and compare it with each stored key. */
  method Search(hs: HashSet, key: CString) returns (found: bool)
    requires Valid(hs)
    ensures found <==> key in Contents(hs)
  {
    var h := ComputeHash(key);
    var index := (h as int) % NumBuckets;
    ContentsByBucket(hs, key);
    match hs.buckets[index]
    case None =>
      found := false;
    case Some(bucket) =>
      found := ScanBucket(bucket.elems, key);
  }

  /** The `strcmp` loop of `hashset_search` over one bucket's stored keys. */
  method ScanBucket(elems: seq<CString>, key: CString) returns (found: bool)
    ensures found <==> key in elems
  {
    var i := 0;
    while i < |elems|
      invariant 0 <= i <= |elems|
      invariant forall j :: 0 <= j < i ==> elems[j] != key
    {
      if elems[i] == key {
        return true;
      }
      i := i + 1;
    }
    found := false;
  }

  /** Inserting a batch of keys one after another. */
  function InsertAll(hs: HashSet, keys: seq<CString>): (r: HashSet)
    requires Valid(hs)
    ensures Valid(r)
    decreases |keys|
  {
    if keys == [] then hs else InsertAll(Insert(hs, keys[0]), keys[1..])
  }

  /**
   * After any sequence of inserts the table represents the old keys plus the inserted
   * ones, so a search finds exactly those.
   */
  lemma {:induction false} InsertAllContents(hs: HashSet, keys: seq<CString>)
    requires Valid(hs)
    ensures Contents(InsertAll(hs, keys)) == Contents(hs) + AsSet(keys)
    decreases |keys|
  {
    if keys != [] {
      var next := Insert(hs, keys[0]);
      InsertAllContents(next, keys[1..]);
      assert InsertAll(hs, keys) == InsertAll(next, keys[1..]);
      AsSetCons(keys);
    }
  }

  lemma AsSetCons(keys: seq<CString>)
    requires keys != []
    ensures AsSet(keys) == {keys[0]} + AsSet(keys[1..])
  {
    assert keys == [keys[0]] + keys[1..];
  }

  /** Every insert stores one more entry, duplicates included. */
  lemma {:induction false} InsertAllLoad(hs: HashSet, keys: seq<CString>)
    requires Valid(hs)
    ensures Load(InsertAll(hs, keys)) == Load(hs) + |keys|
    decreases |keys|
  {
    if keys != [] {
      InsertAllLoad(Insert(hs, keys[0]), keys[1..]);
    }
  }

  /** A table built from nothing holds exactly the inserted keys. */
  lemma BuiltContents(keys: seq<CString>)
    ensures Contents(InsertAll(NewHashSet(), keys)) == AsSet(keys)
    ensures Load(InsertAll(NewHashSet(), keys)) == |keys|
  {
    InsertAllFromEmpty(NewHashSet(), keys);
  }

  /** Inserting into a valid empty table leaves exactly the inserted keys, one count per insert. */
  lemma InsertAllFromEmpty(empty: HashSet, keys: seq<CString>)
    requires Valid(empty) && Contents(empty) == {} && Load(empty) == 0
    ensures Contents(InsertAll(empty, keys)) == AsSet(keys)
    ensures Load(InsertAll(empty, keys)) == |keys|
  {
    InsertAllContents(empty, keys);
    InsertAllLoad(empty, keys);
  }

  /** Inserting a key that is already there appends a second copy to its bucket, and no search result changes. */
  lemma DuplicateInsert(hs: HashSet, key: CString)
    requires Valid(hs) && key in Contents(hs)
    ensures Contents(Insert(hs, key)) == Contents(hs)
    ensures var e := Elems(Insert(hs, key).buckets[BucketIndex(key)]);
              |e| >= 2 && e[|e| - 1] == key && key in e[..|e| - 1]
  {
    ContentsByBucket(hs, key);
    var before := Elems(hs.buckets[BucketIndex(key)]);
    assert (before + [key])[..|before|] == before;
  }

  /** Every stored bucket holds at least one key, so the collision terms are never negative. */
  lemma {:induction false} OccupiedAtMostLoad(bs: seq<Option<Bucket>>)
    requires forall i :: 0 <= i < |bs| ==> bs[i].Some? ==> |bs[i].value.elems| >= 1
    ensures Sum(bs, Used) <= Sum(bs, Size)
  {
    if bs != [] {
      OccupiedAtMostLoad(bs[..|bs| - 1]);
    }
  }

  /** Adding to a 32-bit counter that has already wrapped gives the same value as wrapping once at the end. */
  lemma ModAdd(a: int, e: int)
    ensures (a % Modulus + e) % Modulus == (a + e) % Modulus
  {
    var q := a / Modulus;
    assert a == q * Modulus + a % Modulus;
    assert a + e == (a % Modulus + e) + q * Modulus;
  }

  /**
   * `num_collisions`: the sum over non-NULL buckets of `length - 1`, accumulated in a
   * 32-bit counter. It is the number of stored entries minus the number of used buckets.
   */
  method NumCollisions(hs: HashSet) returns (total: nat)
    requires Valid(hs)
    ensures total < Modulus
    ensures total == (Load(hs) - Occupied(hs)) % Modulus
    ensures Occupied(hs) <= Load(hs)
  {
    ValidNonEmpty(hs);
    total := 0;
    var i := 0;
    while i < NumBuckets
      invariant 0 <= i <= NumBuckets
      decreases NumBuckets - i
      invariant total == (Sum(hs.buckets[..i], Size) - Sum(hs.buckets[..i], Used)) % Modulus
    {
      CollisionStep(hs.buckets, i, total);
      match hs.buckets[i] {
        case None =>
        case Some(bucket) =>
          var extra: nat := |bucket.elems| - 1;
          total := (total + extra) % Modulus;
      }
      i := i + 1;
    }
    assert hs.buckets[..i] == hs.buckets;
    OccupiedAtMostLoad(hs.buckets);
  }

  /** One iteration of the `num_collisions` loop keeps the counter equal to the wrapped partial difference. */
  lemma CollisionStep(bs: seq<Option<Bucket>>, i: nat, total: int)
    requires i < |bs| && (bs[i].Some? ==> |bs[i].value.elems| >= 1)
    requires total == (Sum(bs[..i], Size) - Sum(bs[..i], Used)) % Modulus
    ensures bs[i].None? ==> total == (Sum(bs[..i + 1], Size) - Sum(bs[..i + 1], Used)) % Modulus
    ensures bs[i].Some? ==>
              (total + (|bs[i].value.elems| - 1)) % Modulus == (Sum(bs[..i + 1], Size) - Sum(bs[..i + 1], Used)) % Modulus
  {
    var before := Sum(bs[..i], Size) - Sum(bs[..i], Used);
    SumStep(bs, i, Size);
    SumStep(bs, i, Used);
    ModAdd(before, Size(bs[i]) - Used(bs[i]));
  }

  /** Every non-NULL bucket of a valid table holds at least one key. */
  lemma ValidNonEmpty(hs: HashSet)
    requires Valid(hs)
    ensures |hs.buckets| == NumBuckets
    ensures forall j :: 0 <= j < |hs.buckets| ==> hs.buckets[j].Some? ==> |hs.buckets[j].value.elems| >= 1
  {
    forall j | 0 <= j < |hs.buckets| ensures hs.buckets[j].Some? ==> |hs.buckets[j].value.elems| >= 1 {
      assert BucketValid(hs.buckets[j], j);
    }
  }
}
