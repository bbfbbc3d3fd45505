/** The separate-chaining hash table of `hashtable_adt.c`: an array of chains
    of entries, each entry owning a copy of its byte key and a reference to the
    caller's item. The caller supplies the hash function at creation. */
module HashTableAdt {
  import opened Common
  import opened Primes

  type Bytes = seq<bv8>

  /** A chain node: the key copy (its length is the entry's `keysize`) and the
      item. The `next` pointer is the order of the chain's sequence. */
  datatype Entry = Entry(key: Bytes, item: Element)

  /** `buckets` is the allocated array of chain heads; `nbuckets` is the modulus
      used to pick a bucket. `cadthashtable_new` sizes the two independently, so the
      model keeps both. */
  datatype Table = Table(
    buckets: seq<seq<Entry>>,
    nbucketsInitial: nat,
    nbuckets: nat,
    nelems: nat,
    hash: Bytes -> nat)

  /** A NULL key pointer or a zero `keysize`. */
  predicate Malformed(key: Option<Bytes>)
  {
    key.None? || |key.value| == 0
  }

  /** `calculate_key_hash`: the caller's hash reduced modulo the bucket count. */
  function BucketIndex(t: Table, key: Bytes): (i: nat)
    requires t.nbuckets > 0
    ensures i < t.nbuckets
  {
    t.hash(key) % t.nbuckets
  }

  /** The bucket a well-formed key selects lies inside the allocated array, so
      the `entries[index]` of `hashtable_adt.c` is a valid access. */
  ghost predicate Addressable(t: Table, key: Option<Bytes>)
  {
    t.nbuckets > 0 && (!Malformed(key) ==> BucketIndex(t, key.value) < |t.buckets|)
  }

  // ------------------------------------------------------------------ chains

  /** Position of the first entry of `chain` with key `key`, or `|chain|` when
      there is none. */
  function FirstMatch(chain: seq<Entry>, key: Bytes): (j: nat)
    ensures j <= |chain|
    ensures j < |chain| ==> chain[j].key == key
    ensures forall k :: 0 <= k < j ==> chain[k].key != key
  {
    if chain == [] then 0
    else if chain[0].key == key then 0
    else 1 + FirstMatch(chain[1..], key)
  }

  /** The walk of `cadthashtable_lookup`: the item of the first entry whose
      key size and bytes equal the probe. */
  function ChainLookup(chain: seq<Entry>, key: Bytes): (r: Option<Element>)
    ensures var j := FirstMatch(chain, key);
            r == if j < |chain| then Some(chain[j].item) else None
  {
    if chain == [] then None
    else if chain[0].key == key then Some(chain[0].item)
    else ChainLookup(chain[1..], key)
  }

  /** What deleting `key` from a chain means: the entry `FirstMatch` finds
      is cut out, the rest keep their order, and its item is handed back. */
  function RemoveFirstMatch(chain: seq<Entry>, key: Bytes): (seq<Entry>, Option<Element>)
  {
    var j := FirstMatch(chain, key);
    if j < |chain| then (chain[..j] + chain[j + 1..], Some(chain[j].item)) else (chain, None)
  }

  /** The pointer-to-pointer walk of `cadthashtable_delete`: unlink the first
      entry with the key, wherever it sits, and hand back its item. */
  function Unlink(chain: seq<Entry>, key: Bytes): (r: (seq<Entry>, Option<Element>))
    ensures r == RemoveFirstMatch(chain, key)
  {
    if chain == [] then (chain, None)
    else if chain[0].key == key then
      UnlinkAtHead(chain, key);
      (chain[1..], Some(chain[0].item))
    else
      var (rest, removed) := Unlink(chain[1..], key);
      UnlinkPastHead(chain, key, rest, removed);
      ([chain[0]] + rest, removed)
  }

  /** The base case of `Unlink`: a matching head is cut off. */
  lemma UnlinkAtHead(chain: seq<Entry>, key: Bytes)
    requires chain != [] && chain[0].key == key
    ensures (chain[1..], Some(chain[0].item)) == RemoveFirstMatch(chain, key)
  {
    assert chain[..0] + chain[1..] == chain[1..];
  }

  /** The recursive case of `Unlink`: the head stays in front of whatever the
      walk does to the tail. */
  lemma UnlinkPastHead(chain: seq<Entry>, key: Bytes, rest: seq<Entry>, removed: Option<Element>)
    requires chain != [] && chain[0].key != key
    requires (rest, removed) == RemoveFirstMatch(chain[1..], key)
    ensures ([chain[0]] + rest, removed) == RemoveFirstMatch(chain, key)
  {
    var j := FirstMatch(chain[1..], key);
    assert FirstMatch(chain, key) == j + 1;
    if j < |chain| - 1 {
      assert [chain[0]] + (chain[1..][..j] + chain[1..][j + 1..]) == chain[..j + 1] + chain[j + 2..];
    } else {
      assert [chain[0]] + chain[1..] == chain;
    }
  }

  ghost predicate DistinctKeys(chain: seq<Entry>)
  {
    forall j, k :: 0 <= j < k < |chain| ==> chain[j].key != chain[k].key
  }

  /** Number of entries over all chains. */
  function Total(buckets: seq<seq<Entry>>): nat
  {
    if buckets == [] then 0 else |buckets[0]| + Total(buckets[1..])
  }

  lemma {:induction false} TotalUpdate(buckets: seq<seq<Entry>>, i: nat, chain: seq<Entry>)
    requires i < |buckets|
    ensures Total(buckets[i := chain]) + |buckets[i]| == Total(buckets) + |chain|
  {
    if i > 0 {
      TotalUpdate(buckets[1..], i - 1, chain);
      assert buckets[i := chain][1..] == buckets[1..][i - 1 := chain];
    }
  }

  lemma {:induction false} TotalOfEmpty(buckets: seq<seq<Entry>>)
    requires forall i :: 0 <= i < |buckets| ==> buckets[i] == []
    ensures Total(buckets) == 0
  {
    if buckets != [] {
      TotalOfEmpty(buckets[1..]);
    }
  }

  /** The chain left after removing position `j`, as positions of the old one. */
  lemma RemoveAt(chain: seq<Entry>, j: nat)
    requires j < |chain|
    ensures var rest := chain[..j] + chain[j + 1..];
            && |rest| == |chain| - 1
            && forall m :: 0 <= m < |rest| ==> rest[m] == chain[if m < j then m else m + 1]
  {
  }

  lemma UnlinkKeepsDistinct(chain: seq<Entry>, j: nat)
    requires DistinctKeys(chain) && j < |chain|
    ensures DistinctKeys(chain[..j] + chain[j + 1..])
  {
    RemoveAt(chain, j);
  }

  /** Unlinking one key leaves every other key's lookup as it was. */
  lemma {:induction false} UnlinkOtherKey(chain: seq<Entry>, k: Bytes, x: Bytes)
    requires x != k
    ensures ChainLookup(Unlink(chain, k).0, x) == ChainLookup(chain, x)
  {
    if chain != [] && chain[0].key != k {
      UnlinkOtherKey(chain[1..], k, x);
      assert ([chain[0]] + Unlink(chain[1..], k).0)[1..] == Unlink(chain[1..], k).0;
    }
  }

  /** In a chain of distinct keys, the unlinked key is no longer found. */
  lemma {:induction false} UnlinkRemovesKey(chain: seq<Entry>, k: Bytes)
    requires DistinctKeys(chain)
    ensures ChainLookup(Unlink(chain, k).0, k) == None
  {
    if chain != [] {
      if chain[0].key != k {
        assert DistinctKeys(chain[1..]);
        UnlinkRemovesKey(chain[1..], k);
        assert ([chain[0]] + Unlink(chain[1..], k).0)[1..] == Unlink(chain[1..], k).0;
      }
    }
  }

  // --------------------------------------------------- invariant, abstraction

  /** What every table built through this API satisfies: each entry sits in the
      bucket its key hashes to, keys within a chain are distinct, and `nelems`
      counts the entries. */
  ghost predicate Valid(t: Table)
  {
    && t.nbuckets > 0
    && (forall i, j :: 0 <= i < |t.buckets| && 0 <= j < |t.buckets[i]| ==>
          BucketIndex(t, t.buckets[i][j].key) == i)
    && (forall i :: 0 <= i < |t.buckets| ==> DistinctKeys(t.buckets[i]))
    && t.nelems == Total(t.buckets)
  }

  /** The keys stored in buckets `n` and above. */
  ghost function KeysFrom(t: Table, n: nat): set<Bytes>
  {
    set i, j | n <= i < |t.buckets| && 0 <= j < |t.buckets[i]| :: t.buckets[i][j].key
  }

  /** The keys stored anywhere in the table. */
  ghost function Keys(t: Table): set<Bytes>
  {
    KeysFrom(t, 0)
  }

  /** A stored key is found in the bucket it hashes to. */
  lemma StoredKeyFound(t: Table, k: Bytes)
    requires Valid(t) && k in Keys(t)
    ensures BucketIndex(t, k) < |t.buckets|
    ensures ChainLookup(t.buckets[BucketIndex(t, k)], k).Some?
  {
    var i, j :| 0 <= i < |t.buckets| && 0 <= j < |t.buckets[i]| && t.buckets[i][j].key == k;
    assert BucketIndex(t, t.buckets[i][j].key) == i;
    assert FirstMatch(t.buckets[i], k) <= j;
  }

  /** The key-to-item map the table represents. */
  ghost function Contents(t: Table): map<Bytes, Element>
    requires Valid(t)
  {
    map k | k in Keys(t) :: (StoredKeyFound(t, k); ChainLookup(t.buckets[BucketIndex(t, k)], k).value)
  }

  /** A key's entry in the map is exactly what the walk of its bucket finds. */
  lemma ContentsAt(t: Table, k: Bytes)
    requires Valid(t)
    ensures k in Contents(t) <==>
              BucketIndex(t, k) < |t.buckets| && ChainLookup(t.buckets[BucketIndex(t, k)], k).Some?
    ensures k in Contents(t) ==> Contents(t)[k] == ChainLookup(t.buckets[BucketIndex(t, k)], k).value
  {
    var i := BucketIndex(t, k);
    if i < |t.buckets| && ChainLookup(t.buckets[i], k).Some? {
      var j := FirstMatch(t.buckets[i], k);
      assert t.buckets[i][j].key == k;
      assert k in Keys(t);
    }
    if k in Keys(t) {
      StoredKeyFound(t, k);
    }
  }

  // ------------------------------------------------------------- operations

  /** A map that agrees with `m` everywhere except that it lacks `k` is
      `m - {k}`. */
  lemma MapRemoved<K, V>(a: map<K, V>, m: map<K, V>, k: K)
    requires forall x :: x in a <==> x in m && x != k
    requires forall x :: x in a ==> a[x] == m[x]
    ensures a == m - {k}
  {
  }

  /** The insertion step of `cadthashtable_insert` (a new entry becomes the
      head of its key's chain) keeps the invariant and adds the key. */
  lemma PrependKeepsInvariant(t: Table, k: Bytes, v: Element, r: Table)
    requires Valid(t) && BucketIndex(t, k) < |t.buckets| && k !in Contents(t)
    requires var i := BucketIndex(t, k);
             r == t.(buckets := t.buckets[i := [Entry(k, v)] + t.buckets[i]], nelems := t.nelems + 1)
    ensures Valid(r) && Contents(r) == Contents(t)[k := v]
  {
    PrependKeepsValid(t, k, v, r);
    var before, after := Contents(t)[k := v], Contents(r);
    forall x
      ensures x in after <==> x in before
      ensures x in after ==> after[x] == before[x]
    {
      PrependContentsAt(t, k, v, r, x);
    }
  }

  /** Prepending an absent key to its chain keeps the invariant. */
  lemma PrependKeepsValid(t: Table, k: Bytes, v: Element, r: Table)
    requires Valid(t) && BucketIndex(t, k) < |t.buckets| && k !in Contents(t)
    requires var i := BucketIndex(t, k);
             r == t.(buckets := t.buckets[i := [Entry(k, v)] + t.buckets[i]], nelems := t.nelems + 1)
    ensures Valid(r)
  {
    var i := BucketIndex(t, k);
    var chain := t.buckets[i];
    assert forall j :: 0 <= j < |chain| ==> chain[j].key != k by {
      ContentsAt(t, k);
    }
    PrependKeepsDistinct(chain, Entry(k, v));
    TotalUpdate(t.buckets, i, [Entry(k, v)] + chain);
    forall m, j | 0 <= m < |r.buckets| && 0 <= j < |r.buckets[m]|
      ensures BucketIndex(r, r.buckets[m][j].key) == m
    {
      if m == i && j > 0 {
        assert r.buckets[m][j] == chain[j - 1];
      }
    }
    forall m | 0 <= m < |r.buckets|
      ensures DistinctKeys(r.buckets[m])
    {
    }
  }

  /** A key absent from a chain of distinct keys can go in front. */
  lemma PrependKeepsDistinct(chain: seq<Entry>, e: Entry)
    requires DistinctKeys(chain) && forall j :: 0 <= j < |chain| ==> chain[j].key != e.key
    ensures DistinctKeys([e] + chain)
  {
    var c := [e] + chain;
    forall a, b | 0 <= a < b < |c|
      ensures c[a].key != c[b].key
    {
      assert c[b] == chain[b - 1];
      if a > 0 {
        assert c[a] == chain[a - 1];
      }
    }
  }

  /** Key by key, prepending `k` binds `k` and keeps every other key's item. */
  lemma PrependContentsAt(t: Table, k: Bytes, v: Element, r: Table, x: Bytes)
    requires Valid(t) && Valid(r) && BucketIndex(t, k) < |t.buckets|
    requires var i := BucketIndex(t, k);
             r == t.(buckets := t.buckets[i := [Entry(k, v)] + t.buckets[i]], nelems := t.nelems + 1)
    ensures x in Contents(r) <==> x in Contents(t)[k := v]
    ensures x in Contents(r) ==> Contents(r)[x] == Contents(t)[k := v][x]
  {
    var i := BucketIndex(t, k);
    ContentsAt(t, x);
    ContentsAt(r, x);
    if BucketIndex(t, x) == i && x != k {
      assert ChainLookup(r.buckets[i], x) == ChainLookup(t.buckets[i], x);
    }
  }

  /** `cadthashtable_new`, allocating as many chain heads as the rounded-up
      bucket count (`hashtable_adt.c` allocates the requested count; see
      `NewAsWritten`). */
  function New(request: nat, hash: Option<Bytes -> nat>): (r: Result<Table>)
    ensures r.Err? <==> request == 0 || hash.None?
    ensures r.Err? ==> r.fault == InvalidArgument
    ensures r.Ok? ==> Valid(r.value) && Contents(r.value) == map[]
    ensures r.Ok? ==> r.value.nelems == 0 && r.value.hash == hash.value
    ensures r.Ok? ==> r.value.nbuckets == r.value.nbucketsInitial == NextPrime(request)
    ensures r.Ok? ==> forall k: Bytes :: Addressable(r.value, Some(k))
  {
    if request == 0 || hash.None? then Err(InvalidArgument)
    else
      var n := NextPrime(request);
      var t := Table(seq(n, _ => []), n, n, 0, hash.value);
      TotalOfEmpty(t.buckets);
      assert Keys(t) == {};
      assert Valid(t);
      assert Contents(t) == map[];
      Ok(t)
  }

  /** `cadthashtable_new` as written: the chain-head array gets the requested
      length, and only afterwards is the bucket count raised to a prime. */
  function NewAsWritten(request: nat, hash: Option<Bytes -> nat>): (r: Result<Table>)
    ensures r.Err? <==> request == 0 || hash.None?
    ensures r.Err? ==> r.fault == InvalidArgument
    ensures r.Ok? ==> Valid(r.value) && Contents(r.value) == map[]
    ensures r.Ok? ==> r.value.nelems == 0 && r.value.hash == hash.value
    ensures r.Ok? ==> |r.value.buckets| == request && r.value.nbuckets == NextPrime(request)
    ensures r.Ok? ==> (|r.value.buckets| == r.value.nbuckets <==> Prime(request))
  {
    if request == 0 || hash.None? then Err(InvalidArgument)
    else
      var n := NextPrime(request);
      assert Prime(request) ==> n == request;
      var t := Table(seq(request, _ => []), n, n, 0, hash.value);
      TotalOfEmpty(t.buckets);
      assert Keys(t) == {};
      assert Valid(t);
      assert Contents(t) == map[];
      Ok(t)
  }

  /** With a hash that is 1 on every key, `NewAsWritten(1, …)` gives a
      one-slot array indexed modulo 2, so every key selects slot 1. */
  lemma NewAsWrittenBucketOverrun()
    ensures var t := NewAsWritten(1, Some(_ => 1)).value;
            |t.buckets| == 1 && t.nbuckets == 2 && !Addressable(t, Some([0x41]))
  {
    assert IsPrime(2);
    assert NextPrime(1) == 2;
  }

  /** `cadthashtable_lookup`: the item stored under the key, or nothing. */
  function Lookup(t: Table, key: Option<Bytes>): (r: Result<Option<Element>>)
    requires Valid(t) && Addressable(t, key)
    ensures r.Err? <==> Malformed(key)
    ensures r.Err? ==> r.fault == InvalidArgument
    ensures r.Ok? ==> r.value == if key.value in Contents(t) then Some(Contents(t)[key.value]) else None
  {
    if key.None? || |key.value| == 0 then Err(InvalidArgument)
    else
      var k := key.value;
      ContentsAt(t, k);
      Ok(ChainLookup(t.buckets[BucketIndex(t, k)], k))
  }

  /** `cadthashtable_insert`: argument checks, the duplicate check through
      `Lookup`, then a prepend to the key's chain. */
  function Insert(t: Table, key: Option<Bytes>, e: Option<Element>): (r: Step<Table, Element>)
    requires Valid(t) && Addressable(t, key)
    ensures Valid(r.state)
    ensures r.out == Err(InvalidArgument) <==> Malformed(key) || e.None?
    ensures r.out == Err(KeyExists) <==> !Malformed(key) && e.Some? && key.value in Contents(t)
    ensures r.out.Err? ==> r.state == t
    ensures r.out.Ok? ==> r.out.value == e.value
    ensures r.out.Ok? ==> Contents(r.state) == Contents(t)[key.value := e.value]
    ensures r.out.Ok? ==> r.state.nelems == t.nelems + 1
    ensures r.out.Ok? ==> var i := BucketIndex(t, key.value);
                          r.state.buckets == t.buckets[i := [Entry(key.value, e.value)] + t.buckets[i]]
    ensures r.state.nbuckets == t.nbuckets && r.state.nbucketsInitial == t.nbucketsInitial
    ensures r.state.hash == t.hash
  {
    if key.None? || |key.value| == 0 || e.None? then Step(t, Err(InvalidArgument))
    else if Lookup(t, key).value.Some? then Step(t, Err(KeyExists))
    else
      var k := key.value;
      var i := BucketIndex(t, k);
      var r := t.(buckets := t.buckets[i := [Entry(k, e.value)] + t.buckets[i]], nelems := t.nelems + 1);
      PrependKeepsInvariant(t, k, e.value, r);
      Step(r, Ok(e.value))
  }

  /** `cadthashtable_delete`: unlink the key's entry from its chain. The item
      argument is only checked for NULL. */
  function Delete(t: Table, key: Option<Bytes>, e: Option<Element>): (r: Step<Table, Option<Element>>)
    requires Valid(t) && Addressable(t, key)
    ensures Valid(r.state)
    ensures r.out.Err? <==> Malformed(key) || e.None?
    ensures r.out.Err? ==> r.out.fault == InvalidArgument && r.state == t
    ensures r.out.Ok? && key.value !in Contents(t) ==> r.out.value == None && r.state == t
    ensures r.out.Ok? && key.value in Contents(t) ==>
              && r.out.value == Some(Contents(t)[key.value])
              && Contents(r.state) == Contents(t) - {key.value}
              && r.state.nelems == t.nelems - 1
    ensures r.out.Ok? && key.value in Contents(t) ==>
              var i := BucketIndex(t, key.value);
              var j := FirstMatch(t.buckets[i], key.value);
              j < |t.buckets[i]| && r.state.buckets == t.buckets[i := t.buckets[i][..j] + t.buckets[i][j + 1..]]
    ensures r.state.nbuckets == t.nbuckets && r.state.nbucketsInitial == t.nbucketsInitial
    ensures r.state.hash == t.hash
  {
    if key.None? || |key.value| == 0 || e.None? then Step(t, Err(InvalidArgument))
    else
      var (r, removed) := DeleteKey(t, key.value);
      Step(r, Ok(removed))
  }

  /** The walk of `cadthashtable_delete` once the arguments are checked. */
  function DeleteKey(t: Table, k: Bytes): (r: (Table, Option<Element>))
    requires Valid(t) && BucketIndex(t, k) < |t.buckets|
    ensures Valid(r.0)
    ensures k !in Contents(t) ==> r.1 == None && r.0 == t
    ensures k in Contents(t) ==>
              && r.1 == Some(Contents(t)[k])
              && Contents(r.0) == Contents(t) - {k}
              && r.0.nelems == t.nelems - 1
    ensures k in Contents(t) ==>
              var i := BucketIndex(t, k);
              var j := FirstMatch(t.buckets[i], k);
              j < |t.buckets[i]| && r.0.buckets == t.buckets[i := t.buckets[i][..j] + t.buckets[i][j + 1..]]
    ensures r.0.nbuckets == t.nbuckets && r.0.nbucketsInitial == t.nbucketsInitial && r.0.hash == t.hash
  {
    var i := BucketIndex(t, k);
    var (chain, removed) := Unlink(t.buckets[i], k);
    ContentsAt(t, k);
    if removed.None? then (t, None)
    else
      TotalUpdate(t.buckets, i, []);
      var r := t.(buckets := t.buckets[i := chain], nelems := t.nelems - 1);
      UnlinkKeepsInvariant(t, k, r);
      (r, removed)
  }

  /** The unlinking step of `cadthashtable_delete` keeps the invariant. */
  lemma UnlinkKeepsValid(t: Table, i: nat, k: Bytes, r: Table)
    requires Valid(t) && i < |t.buckets| && FirstMatch(t.buckets[i], k) < |t.buckets[i]|
    requires r == t.(buckets := t.buckets[i := Unlink(t.buckets[i], k).0], nelems := r.nelems)
    requires r.nelems + 1 == t.nelems
    ensures Valid(r)
  {
    var chain := t.buckets[i];
    var j := FirstMatch(chain, k);
    var rest := chain[..j] + chain[j + 1..];
    assert r.buckets[i] == rest;
    RemoveAt(chain, j);
    UnlinkKeepsDistinct(chain, j);
    TotalUpdate(t.buckets, i, rest);
    assert forall m :: 0 <= m < |rest| ==> BucketIndex(r, rest[m].key) == i;
  }

  /** Key by key, unlinking `k` from its bucket removes `k` and keeps every
      other key's item. */
  lemma UnlinkContentsAt(t: Table, k: Bytes, r: Table, x: Bytes)
    requires Valid(t) && Valid(r) && BucketIndex(t, k) < |t.buckets|
    requires var i := BucketIndex(t, k);
             r == t.(buckets := t.buckets[i := Unlink(t.buckets[i], k).0], nelems := r.nelems)
    requires DistinctKeys(t.buckets[BucketIndex(t, k)])
    ensures x in Contents(r) <==> x in Contents(t) && x != k
    ensures x in Contents(r) ==> Contents(r)[x] == Contents(t)[x]
  {
    var chain := t.buckets[BucketIndex(t, k)];
    ContentsAt(t, x);
    ContentsAt(r, x);
    if x == k {
      UnlinkRemovesKey(chain, k);
    } else {
      UnlinkOtherKey(chain, k, x);
    }
  }

  /** The unlinking step of `cadthashtable_delete` keeps the invariant and
      removes the key and nothing else. */
  lemma UnlinkKeepsInvariant(t: Table, k: Bytes, r: Table)
    requires Valid(t) && BucketIndex(t, k) < |t.buckets| && k in Contents(t)
    requires var i := BucketIndex(t, k);
             r == t.(buckets := t.buckets[i := Unlink(t.buckets[i], k).0], nelems := r.nelems)
    requires r.nelems + 1 == t.nelems
    ensures Valid(r) && Contents(r) == Contents(t) - {k}
  {
    ContentsAt(t, k);
    UnlinkKeepsValid(t, BucketIndex(t, k), k, r);
    var before, after := Contents(t), Contents(r);
    forall x
      ensures x in after <==> x in before && x != k
      ensures x in after ==> after[x] == before[x]
    {
      UnlinkContentsAt(t, k, r, x);
    }
    MapRemoved(after, before, k);
  }

  // ----------------------------------------------------------------- lemmas

  /** After a successful insert, looking up the inserted key finds the new
      item and every other key finds what it found before. */
  lemma LookupAfterInsert(t: Table, k: Bytes, v: Element, x: Bytes)
    requires Valid(t) && Addressable(t, Some(k)) && Addressable(t, Some(x))
    requires Insert(t, Some(k), Some(v)).out.Ok?
    ensures var r := Insert(t, Some(k), Some(v)).state;
            Addressable(r, Some(x)) &&
            Lookup(r, Some(x)) == if x == k then Ok(Some(v)) else Lookup(t, Some(x))
  {
  }

  /** A second insert of a key that is present fails and changes nothing. */
  lemma InsertTwiceRefused(t: Table, k: Bytes, v: Element, w: Element)
    requires Valid(t) && Addressable(t, Some(k))
    requires Insert(t, Some(k), Some(v)).out.Ok?
    ensures var r := Insert(t, Some(k), Some(v)).state;
            Addressable(r, Some(k)) && Insert(r, Some(k), Some(w)) == Step(r, Err(KeyExists))
  {
  }

  /** Deleting a key just inserted restores the table's contents and count. */
  lemma DeleteUndoesInsert(t: Table, k: Bytes, v: Element, e: Element)
    requires Valid(t) && Addressable(t, Some(k))
    requires Insert(t, Some(k), Some(v)).out.Ok?
    ensures var r := Insert(t, Some(k), Some(v)).state;
            var d := Delete(r, Some(k), Some(e));
            && d.out == Ok(Some(v))
            && Contents(d.state) == Contents(t)
            && d.state.nelems == t.nelems
  {
    var r := Insert(t, Some(k), Some(v)).state;
    assert Contents(r) - {k} == Contents(t);
  }

  ghost function ChainKeys(chain: seq<Entry>): set<Bytes>
  {
    set j | 0 <= j < |chain| :: chain[j].key
  }

  lemma {:induction false} ChainKeysCount(chain: seq<Entry>)
    requires DistinctKeys(chain)
    ensures |ChainKeys(chain)| == |chain|
  {
    if chain != [] {
      var rest := chain[1..];
      assert DistinctKeys(rest);
      ChainKeysCount(rest);
      assert ChainKeys(chain) == {chain[0].key} + ChainKeys(rest) by {
        forall x | x in ChainKeys(chain) ensures x in {chain[0].key} + ChainKeys(rest) {
          var j :| 0 <= j < |chain| && chain[j].key == x;
          if j > 0 {
            assert rest[j - 1].key == x;
          }
        }
      }
      assert chain[0].key !in ChainKeys(rest);
    }
  }

  lemma KeysFromSplit(t: Table, n: nat)
    requires n < |t.buckets|
    ensures KeysFrom(t, n) == ChainKeys(t.buckets[n]) + KeysFrom(t, n + 1)
  {
    forall x | x in KeysFrom(t, n) ensures x in ChainKeys(t.buckets[n]) + KeysFrom(t, n + 1) {
      var i, j :| n <= i < |t.buckets| && 0 <= j < |t.buckets[i]| && t.buckets[i][j].key == x;
      if i == n {
        assert x in ChainKeys(t.buckets[n]);
      }
    }
  }

  lemma KeysFromDisjoint(t: Table, n: nat)
    requires Valid(t) && n < |t.buckets|
    ensures ChainKeys(t.buckets[n]) !! KeysFrom(t, n + 1)
  {
    forall x | x in ChainKeys(t.buckets[n]) ensures x !in KeysFrom(t, n + 1) {
      var j :| 0 <= j < |t.buckets[n]| && t.buckets[n][j].key == x;
      assert BucketIndex(t, x) == n;
    }
  }

  lemma {:induction false} KeysFromCount(t: Table, n: nat)
    requires Valid(t) && n <= |t.buckets|
    ensures |KeysFrom(t, n)| == Total(t.buckets[n..])
    decreases |t.buckets| - n
  {
    if n == |t.buckets| {
      assert KeysFrom(t, n) == {};
    } else {
      KeysFromCount(t, n + 1);
      ChainKeysCount(t.buckets[n]);
      assert t.buckets[n..][1..] == t.buckets[n + 1..];
      KeysFromSplit(t, n);
      KeysFromDisjoint(t, n);
    }
  }

  /** The element count the table keeps is the number of keys it maps. */
  lemma NelemsCountsKeys(t: Table)
    requires Valid(t)
    ensures t.nelems == |Contents(t)|
  {
    KeysFromCount(t, 0);
    assert t.buckets[0..] == t.buckets;
    assert Contents(t).Keys == Keys(t);
  }
}
