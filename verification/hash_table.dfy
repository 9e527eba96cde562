/** The chained, string-keyed hash table that holds the user records: an array of bucket
    chains, a capacity, and a count of stored keys. */
module HashTable {
  import opened Base

  datatype HashNode<V> = HashNode(key: string, value: V)

  /** `buckets[b]` is the chain hanging off `table[b]`, read from its head. */
  datatype Table<V> = Table(buckets: seq<seq<HashNode<V>>>, capacity: nat, size: nat)

  // ---------------------------------------------------------------------------
  // Hashing
  // ---------------------------------------------------------------------------

  /** A character as the host's signed `char`: its low byte, sign-extended. */
  function SignedChar(c: char): int
  {
    var b := (c as int) % TWO_8;
    if b < 128 then b else b - TWO_8
  }

  /** One round of `h = (h * 31 + c) % capacity` in `size_t` arithmetic: the sum wraps modulo
      2^64 (a negative `char` converts to a large unsigned value) before the reduction. */
  function HashStep(h: nat, c: char, capacity: nat): (r: nat)
    requires capacity > 0
    ensures r < capacity
  {
    ((h * 31 + SignedChar(c)) % TWO_64) % capacity
  }

  function HashFrom(key: string, i: nat, h: nat, capacity: nat): (r: nat)
    requires capacity > 0 && h < capacity && i <= |key|
    ensures r < capacity
    decreases |key| - i
  {
    if i == |key| then h else HashFrom(key, i + 1, HashStep(h, key[i], capacity), capacity)
  }

  /** `hash(key)`: with a positive capacity the bucket index is always in range. */
  function Hash(key: string, capacity: nat): (h: nat)
    requires capacity > 0
    ensures h < capacity
  {
    HashFrom(key, 0, 0, capacity)
  }

  // ---------------------------------------------------------------------------
  // Representation invariant and abstraction
  // ---------------------------------------------------------------------------

  /** Every key stored anywhere in the table. */
  function Keys<V>(t: Table<V>): set<string>
  {
    set b, j | 0 <= b < |t.buckets| && 0 <= j < |t.buckets[b]| :: t.buckets[b][j].key
  }

  /** Each node sits in the chain its key hashes to. */
  predicate Placed<V>(bs: seq<seq<HashNode<V>>>, capacity: nat)
  {
    capacity > 0 &&
    forall b, j :: 0 <= b < |bs| && 0 <= j < |bs[b]| ==> Hash(bs[b][j].key, capacity) == b
  }

  /** No chain carries a key twice. */
  predicate ChainsDistinct<V>(bs: seq<seq<HashNode<V>>>)
  {
    forall b, i, j :: 0 <= b < |bs| && 0 <= i < j < |bs[b]| ==> bs[b][i].key != bs[b][j].key
  }

  /** One chain per bucket and each node in the chain its key hashes to. */
  predicate WellPlaced<V>(t: Table<V>)
  {
    && t.capacity > 0
    && |t.buckets| == t.capacity
    && Placed(t.buckets, t.capacity)
  }

  /** Each key sits in the chain its hash selects, at most once, and `size` counts the keys. */
  predicate Valid<V>(t: Table<V>)
  {
    && WellPlaced(t)
    && ChainsDistinct(t.buckets)
    && t.size == |Keys(t)|
  }

  /** `HashTable(cap)`: `cap` empty chains. */
  function New<V>(capacity: nat): (t: Table<V>)
    ensures capacity > 0 ==> Valid(t)
    ensures Keys(t) == {} && t.size == 0 && t.capacity == capacity
  {
    Table(seq(capacity, _ => []), capacity, 0)
  }

  /** The position of the first node of a chain that carries `key` (the scan of the chain loop). */
  function ChainIndex<V>(c: seq<HashNode<V>>, key: string): (r: Option<nat>)
    ensures r.Some? ==> r.value < |c| && c[r.value].key == key
    ensures r.Some? ==> forall j :: 0 <= j < r.value ==> c[j].key != key
    ensures r.None? ==> forall j :: 0 <= j < |c| ==> c[j].key != key
  {
    if c == [] then None
    else if c[0].key == key then Some(0)
    else match ChainIndex(c[1..], key)
      case None => None
      case Some(i) => Some(i + 1)
  }

  /** A key is stored exactly when its own chain carries it. */
  lemma KeyInOwnChain<V>(t: Table<V>, key: string)
    requires WellPlaced(t)
    ensures key in Keys(t) <==> ChainIndex(t.buckets[Hash(key, t.capacity)], key).Some?
  {
    var h := Hash(key, t.capacity);
    if key in Keys(t) {
      var b, j :| 0 <= b < |t.buckets| && 0 <= j < |t.buckets[b]| && t.buckets[b][j].key == key;
      assert b == h;
    }
    if ChainIndex(t.buckets[h], key).Some? {
      var j := ChainIndex(t.buckets[h], key).value;
      assert t.buckets[h][j].key in Keys(t);
    }
  }

  // ---------------------------------------------------------------------------
  // Operations
  // ---------------------------------------------------------------------------

  /** `get`: the value stored under `key`, or null. */
  function Get<V>(t: Table<V>, key: string): (r: Option<V>)
    requires Valid(t)
    ensures r.Some? <==> key in Keys(t)
  {
    KeyInOwnChain(t, key);
    var c := t.buckets[Hash(key, t.capacity)];
    match ChainIndex(c, key)
    case None => None
    case Some(i) => Some(c[i].value)
  }

  /** The table as a finite map from keys to values. */
  function Contents<V>(t: Table<V>): (m: map<string, V>)
    requires Valid(t)
    ensures m.Keys == Keys(t)
    ensures forall k :: k in m ==> Get(t, k) == Some(m[k])
  {
    map k | k in Keys(t) :: Get(t, k).value
  }

  /** `getSize`. */
  function GetSize<V>(t: Table<V>): (n: nat)
    requires Valid(t)
    ensures n == |Contents(t)|
  {
    t.size
  }

  /** `insert`: refuse a key already present; otherwise link a new node at the head of its chain. */
  function Insert<V>(t: Table<V>, key: string, value: V): (r: (bool, Table<V>))
    requires Valid(t)
    ensures Valid(r.1) && r.1.capacity == t.capacity
    ensures key in Keys(t) ==> r == (false, t)
    ensures key !in Keys(t) ==> r.0 && r.1.size == t.size + 1 && Keys(r.1) == Keys(t) + {key}
    ensures Get(r.1, key) == if key in Keys(t) then Get(t, key) else Some(value)
    ensures forall k :: k != key ==> Get(r.1, k) == Get(t, k)
  {
    KeyInOwnChain(t, key);
    var h := Hash(key, t.capacity);
    if ChainIndex(t.buckets[h], key).Some? then (false, t)
    else
      PrependedKeys(t, h, key, value);
      PrependedGet(t, key, value);
      (true, Prepended(t, h, key, value))
  }

  /** The table after linking `HashNode(key, value)` at the head of chain `h`. */
  function Prepended<V>(t: Table<V>, h: nat, key: string, value: V): Table<V>
    requires h < |t.buckets|
  {
    Table(t.buckets[h := [HashNode(key, value)] + t.buckets[h]], t.capacity, t.size + 1)
  }

  lemma PrependedKeys<V>(t: Table<V>, h: nat, key: string, value: V)
    requires h < |t.buckets|
    ensures Keys(Prepended(t, h, key, value)) == Keys(t) + {key}
  {
    var t' := Prepended(t, h, key, value);
    forall k | k in Keys(t') ensures k in Keys(t) + {key} {
      var b, j :| 0 <= b < |t'.buckets| && 0 <= j < |t'.buckets[b]| && t'.buckets[b][j].key == k;
      if b == h && j > 0 {
        assert t'.buckets[b][j] == t.buckets[b][j - 1];
      } else if b != h {
        assert t'.buckets[b][j] == t.buckets[b][j];
      }
    }
    forall k | k in Keys(t) + {key} ensures k in Keys(t') {
      if k == key {
        assert t'.buckets[h][0].key == key;
      } else {
        var b, j :| 0 <= b < |t.buckets| && 0 <= j < |t.buckets[b]| && t.buckets[b][j].key == k;
        if b == h {
          assert t'.buckets[b][j + 1] == t.buckets[b][j];
        } else {
          assert t'.buckets[b][j] == t.buckets[b][j];
        }
      }
    }
  }

  /** A node linked at the head of its own chain is placed like the rest. */
  lemma PlacedCons<V>(bs: seq<seq<HashNode<V>>>, capacity: nat, h: nat, n: HashNode<V>)
    requires Placed(bs, capacity) && h < |bs| && Hash(n.key, capacity) == h
    ensures Placed(bs[h := [n] + bs[h]], capacity)
  {
    var bs': seq<seq<HashNode<V>>> := bs[h := [n] + bs[h]];
    forall b, j | 0 <= b < |bs'| && 0 <= j < |bs'[b]| ensures Hash(bs'[b][j].key, capacity) == b {
      if b == h && j > 0 {
        assert bs'[b][j] == bs[b][j - 1];
      } else if b != h {
        assert bs'[b] == bs[b];
      }
    }
  }

  /** A node whose key its chain does not carry keeps the chain free of repeats. */
  lemma DistinctCons<V>(bs: seq<seq<HashNode<V>>>, h: nat, n: HashNode<V>)
    requires ChainsDistinct(bs) && h < |bs|
    requires forall j :: 0 <= j < |bs[h]| ==> bs[h][j].key != n.key
    ensures ChainsDistinct(bs[h := [n] + bs[h]])
  {
    var bs': seq<seq<HashNode<V>>> := bs[h := [n] + bs[h]];
    forall b, i, j | 0 <= b < |bs'| && 0 <= i < j < |bs'[b]| ensures bs'[b][i].key != bs'[b][j].key {
      if b == h {
        assert bs'[b][j] == bs[b][j - 1];
        if i > 0 { assert bs'[b][i] == bs[b][i - 1]; }
      } else {
        assert bs'[b] == bs[b];
      }
    }
  }

  lemma PrependedValid<V>(t: Table<V>, key: string, value: V)
    requires Valid(t) && key !in Keys(t)
    ensures Valid(Prepended(t, Hash(key, t.capacity), key, value))
  {
    var h := Hash(key, t.capacity);
    PrependedKeys(t, h, key, value);
    forall j | 0 <= j < |t.buckets[h]| ensures t.buckets[h][j].key != key {
      assert t.buckets[h][j].key in Keys(t);
    }
    PlacedCons(t.buckets, t.capacity, h, HashNode(key, value));
    DistinctCons(t.buckets, h, HashNode(key, value));
  }

  lemma PrependedGet<V>(t: Table<V>, key: string, value: V)
    requires Valid(t) && key !in Keys(t)
    ensures Valid(Prepended(t, Hash(key, t.capacity), key, value))
    ensures Get(Prepended(t, Hash(key, t.capacity), key, value), key) == Some(value)
    ensures forall k :: k != key ==> Get(Prepended(t, Hash(key, t.capacity), key, value), k) == Get(t, k)
  {
    var h := Hash(key, t.capacity);
    var t' := Prepended(t, h, key, value);
    PrependedValid(t, key, value);
    assert t'.buckets[h][0].key == key;
    forall k | k != key ensures Get(t', k) == Get(t, k) {
      var hk := Hash(k, t.capacity);
      if hk == h {
        var c := t.buckets[h];
        var c' := t'.buckets[h];
        assert c' == [HashNode(key, value)] + c;
        assert c'[1..] == c;
      }
    }
  }

  /** The chain without its node at `i`. */
  function Without<V>(c: seq<HashNode<V>>, i: nat): (r: seq<HashNode<V>>)
    requires i < |c|
    ensures |r| == |c| - 1
    ensures forall j :: 0 <= j < |r| ==> r[j] == if j < i then c[j] else c[j + 1]
  {
    c[..i] + c[i + 1..]
  }

  /** The chain loop of `remove`: unlink the first node carrying `key`. */
  function ChainRemove<V>(c: seq<HashNode<V>>, key: string): seq<HashNode<V>>
  {
    if c == [] then []
    else if c[0].key == key then c[1..]
    else [c[0]] + ChainRemove(c[1..], key)
  }

  /** Dropping a later node commutes with keeping the head. */
  lemma ConsWithout<V>(c: seq<HashNode<V>>, i: nat)
    requires 0 < i < |c|
    ensures [c[0]] + Without(c[1..], i - 1) == Without(c, i)
  {
    var r := [c[0]] + Without(c[1..], i - 1);
    var w := Without(c, i);
    forall j | 0 <= j < |r| ensures r[j] == w[j] {
      if j > 0 { assert r[j] == Without(c[1..], i - 1)[j - 1]; }
    }
  }

  /** The loop leaves a chain without the key alone and otherwise drops exactly the first
      node carrying it. */
  lemma {:induction false} ChainRemoveDrops<V>(c: seq<HashNode<V>>, key: string)
    ensures ChainIndex(c, key).None? ==> ChainRemove(c, key) == c
    ensures ChainIndex(c, key).Some? ==> ChainRemove(c, key) == Without(c, ChainIndex(c, key).value)
  {
    if c == [] {
    } else if c[0].key == key {
      assert c[1..] == Without(c, 0);
    } else {
      ChainRemoveDrops(c[1..], key);
      match ChainIndex(c[1..], key)
      case None =>
        assert c == [c[0]] + c[1..];
      case Some(i) =>
        ConsWithout(c, i + 1);
    }
  }

  /** `remove`: unlink the key's node and shrink the count, or report that it was absent. */
  function Remove<V>(t: Table<V>, key: string): (r: (bool, Table<V>))
    requires Valid(t)
    ensures Valid(r.1) && r.1.capacity == t.capacity
    ensures key !in Keys(t) ==> r == (false, t)
    ensures key in Keys(t) ==> r.0 && r.1.size == t.size - 1 && Keys(r.1) == Keys(t) - {key}
    ensures Get(r.1, key).None?
    ensures forall k :: k != key ==> Get(r.1, k) == Get(t, k)
  {
    KeyInOwnChain(t, key);
    var h := Hash(key, t.capacity);
    if ChainIndex(t.buckets[h], key).None? then (false, t)
    else
      UnlinkedKeys(t, key);
      UnlinkedGet(t, key);
      (true, Unlinked(t, h, key))
  }

  /** The table after unlinking the first node carrying `key` from chain `h`. */
  function Unlinked<V>(t: Table<V>, h: nat, key: string): Table<V>
    requires h < |t.buckets| && t.size > 0
  {
    Table(t.buckets[h := ChainRemove(t.buckets[h], key)], t.capacity, t.size - 1)
  }

  /** Dropping one node keeps every remaining node in its own chain. */
  lemma PlacedWithout<V>(bs: seq<seq<HashNode<V>>>, capacity: nat, h: nat, i: nat)
    requires Placed(bs, capacity) && h < |bs| && i < |bs[h]|
    ensures Placed(bs[h := Without(bs[h], i)], capacity)
  {
    var bs': seq<seq<HashNode<V>>> := bs[h := Without(bs[h], i)];
    forall b, j | 0 <= b < |bs'| && 0 <= j < |bs'[b]| ensures Hash(bs'[b][j].key, capacity) == b {
      if b == h {
        assert bs'[b][j] == bs[b][if j < i then j else j + 1];
      } else {
        assert bs'[b] == bs[b];
      }
    }
  }

  /** Dropping one node keeps every chain free of repeated keys. */
  lemma DistinctWithout<V>(bs: seq<seq<HashNode<V>>>, h: nat, i: nat)
    requires ChainsDistinct(bs) && h < |bs| && i < |bs[h]|
    ensures ChainsDistinct(bs[h := Without(bs[h], i)])
  {
    var bs': seq<seq<HashNode<V>>> := bs[h := Without(bs[h], i)];
    forall b, m, j | 0 <= b < |bs'| && 0 <= m < j < |bs'[b]| ensures bs'[b][m].key != bs'[b][j].key {
      if b == h {
        assert bs'[b][m] == bs[b][if m < i then m else m + 1];
        assert bs'[b][j] == bs[b][if j < i then j else j + 1];
      } else {
        assert bs'[b] == bs[b];
      }
    }
  }

  lemma UnlinkedShape<V>(t: Table<V>, key: string)
    requires Valid(t) && key in Keys(t)
    ensures WellPlaced(Unlinked(t, Hash(key, t.capacity), key))
    ensures ChainsDistinct(Unlinked(t, Hash(key, t.capacity), key).buckets)
  {
    var h := Hash(key, t.capacity);
    KeyInOwnChain(t, key);
    var i := ChainIndex(t.buckets[h], key).value;
    ChainRemoveDrops(t.buckets[h], key);
    assert Unlinked(t, h, key).buckets == t.buckets[h := Without(t.buckets[h], i)];
    PlacedWithout(t.buckets, t.capacity, h, i);
    DistinctWithout(t.buckets, h, i);
  }

  /** No key survives unlinking that was not there, and the unlinked key is gone. */
  lemma UnlinkedKeysShrink<V>(t: Table<V>, key: string, h: nat, i: nat)
    requires WellPlaced(t) && ChainsDistinct(t.buckets) && t.size > 0
    requires h == Hash(key, t.capacity) && i < |t.buckets[h]| && t.buckets[h][i].key == key
    ensures forall k :: k in Keys(Table(t.buckets[h := Without(t.buckets[h], i)], t.capacity, t.size - 1)) ==>
              k in Keys(t) && k != key
  {
    var bs := t.buckets;
    var bs': seq<seq<HashNode<V>>> := bs[h := Without(bs[h], i)];
    forall k | k in Keys(Table(bs', t.capacity, t.size - 1)) ensures k in Keys(t) && k != key {
      var b, j :| 0 <= b < |bs'| && 0 <= j < |bs'[b]| && bs'[b][j].key == k;
      var j0 := if b == h && j >= i then j + 1 else j;
      assert bs'[b][j] == bs[b][j0];
    }
  }

  /** Every other key survives unlinking. */
  lemma UnlinkedKeysKeep<V>(t: Table<V>, key: string, h: nat, i: nat)
    requires h < |t.buckets| && i < |t.buckets[h]| && t.buckets[h][i].key == key && t.size > 0
    ensures forall k :: k in Keys(t) && k != key ==>
              k in Keys(Table(t.buckets[h := Without(t.buckets[h], i)], t.capacity, t.size - 1))
  {
    var bs := t.buckets;
    var bs': seq<seq<HashNode<V>>> := bs[h := Without(bs[h], i)];
    forall k | k in Keys(t) && k != key ensures k in Keys(Table(bs', t.capacity, t.size - 1)) {
      var b, j :| 0 <= b < |bs| && 0 <= j < |bs[b]| && bs[b][j].key == k;
      if b == h {
        var j' := if j < i then j else j - 1;
        assert bs'[b][j'] == bs[b][j];
      } else {
        assert bs'[b] == bs[b];
      }
    }
  }

  lemma UnlinkedKeys<V>(t: Table<V>, key: string)
    requires Valid(t) && key in Keys(t)
    ensures Keys(Unlinked(t, Hash(key, t.capacity), key)) == Keys(t) - {key}
  {
    var h := Hash(key, t.capacity);
    KeyInOwnChain(t, key);
    var i := ChainIndex(t.buckets[h], key).value;
    ChainRemoveDrops(t.buckets[h], key);
    assert Unlinked(t, h, key) == Table(t.buckets[h := Without(t.buckets[h], i)], t.capacity, t.size - 1);
    UnlinkedKeysShrink(t, key, h, i);
    UnlinkedKeysKeep(t, key, h, i);
  }

  lemma UnlinkedValid<V>(t: Table<V>, key: string)
    requires Valid(t) && key in Keys(t)
    ensures Valid(Unlinked(t, Hash(key, t.capacity), key))
  {
    UnlinkedShape(t, key);
    UnlinkedKeys(t, key);
  }

  lemma UnlinkedGet<V>(t: Table<V>, key: string)
    requires Valid(t) && key in Keys(t)
    ensures Valid(Unlinked(t, Hash(key, t.capacity), key))
    ensures forall k :: k != key ==> Get(Unlinked(t, Hash(key, t.capacity), key), k) == Get(t, k)
  {
    var h := Hash(key, t.capacity);
    var t' := Unlinked(t, h, key);
    KeyInOwnChain(t, key);
    UnlinkedValid(t, key);
    var c := t.buckets[h];
    var i := ChainIndex(c, key).value;
    ChainRemoveDrops(c, key);
    forall k | k != key ensures Get(t', k) == Get(t, k) {
      var hk := Hash(k, t.capacity);
      if hk == h {
        ChainIndexAfterRemove(c, i, k);
      }
    }
  }

  /** `ChainIndex` is pinned down by its contract: the first position carrying the key. */
  lemma ChainIndexUnique<V>(c: seq<HashNode<V>>, k: string, r: Option<nat>)
    requires r.Some? ==> r.value < |c| && c[r.value].key == k && forall j :: 0 <= j < r.value ==> c[j].key != k
    requires r.None? ==> forall j :: 0 <= j < |c| ==> c[j].key != k
    ensures ChainIndex(c, k) == r
  {
  }

  /** Dropping the node at `i`, whose key differs from `k`, does not change what `k` finds. */
  lemma ChainIndexAfterRemove<V>(c: seq<HashNode<V>>, i: nat, k: string)
    requires i < |c| && c[i].key != k
    ensures var r := ChainIndex(Without(c, i), k);
      match ChainIndex(c, k)
      case None => r.None?
      case Some(j) => r.Some? && (if j < i then r.value == j else r.value == j - 1) && Without(c, i)[r.value] == c[j]
  {
    var c' := Without(c, i);
    match ChainIndex(c, k)
    case None =>
      ChainIndexUnique(c', k, None);
    case Some(j) =>
      var j' := if j < i then j else j - 1;
      assert c'[j'] == c[j];
      forall m | 0 <= m < j' ensures c'[m].key != k {
        assert c'[m] == if m < i then c[m] else c[m + 1];
      }
      ChainIndexUnique(c', k, Some(j'));
  }

  // ---------------------------------------------------------------------------
  // Enumeration
  // ---------------------------------------------------------------------------

  function ChainKeys<V>(c: seq<HashNode<V>>): (ks: seq<string>)
    ensures |ks| == |c|
    ensures forall j :: 0 <= j < |c| ==> ks[j] == c[j].key
  {
    if c == [] then [] else [c[0].key] + ChainKeys(c[1..])
  }

  function BucketKeys<V>(bs: seq<seq<HashNode<V>>>): seq<string>
  {
    if bs == [] then [] else ChainKeys(bs[0]) + BucketKeys(bs[1..])
  }

  /** Every key of the table, bucket by bucket and each chain from its head. */
  function AllKeys<V>(t: Table<V>): seq<string>
  {
    BucketKeys(t.buckets)
  }

  predicate Distinct(s: seq<string>)
  {
    forall i, j :: 0 <= i < j < |s| ==> s[i] != s[j]
  }

  lemma {:induction false} BucketKeysMembers<V>(bs: seq<seq<HashNode<V>>>)
    ensures forall k :: k in BucketKeys(bs) <==> exists b, j :: 0 <= b < |bs| && 0 <= j < |bs[b]| && bs[b][j].key == k
    decreases |bs|
  {
    if bs != [] {
      var rest: seq<seq<HashNode<V>>> := bs[1..];
      BucketKeysMembers(rest);
      var head := ChainKeys(bs[0]);
      var tail := BucketKeys(rest);
      assert BucketKeys(bs) == head + tail;
      forall k ensures k in BucketKeys(bs) <==> exists b, j :: 0 <= b < |bs| && 0 <= j < |bs[b]| && bs[b][j].key == k {
        if k in tail {
          var b, j :| 0 <= b < |rest| && 0 <= j < |rest[b]| && rest[b][j].key == k;
          assert bs[b + 1][j].key == k;
        }
        if exists b, j :: 0 <= b < |bs| && 0 <= j < |bs[b]| && bs[b][j].key == k {
          var b, j :| 0 <= b < |bs| && 0 <= j < |bs[b]| && bs[b][j].key == k;
          if b == 0 {
            assert head[j] == k;
          } else {
            assert rest[b - 1][j].key == k;
          }
        }
      }
    }
  }

  /** Chains `bs[b]` hold only keys hashing to `lo + b`. */
  predicate PlacedFrom<V>(bs: seq<seq<HashNode<V>>>, capacity: nat, lo: nat)
  {
    capacity > 0 &&
    forall b, j :: 0 <= b < |bs| && 0 <= j < |bs[b]| ==> Hash(bs[b][j].key, capacity) == lo + b
  }

  lemma {:induction false} BucketKeysDistinct<V>(bs: seq<seq<HashNode<V>>>, capacity: nat, lo: nat)
    requires PlacedFrom(bs, capacity, lo) && ChainsDistinct(bs)
    ensures Distinct(BucketKeys(bs))
    ensures forall k :: k in BucketKeys(bs) ==> lo <= Hash(k, capacity) < lo + |bs|
    decreases |bs|
  {
    if bs != [] {
      var rest: seq<seq<HashNode<V>>> := bs[1..];
      assert forall b :: 0 <= b < |rest| ==> rest[b] == bs[b + 1];
      assert PlacedFrom(rest, capacity, lo + 1);
      assert ChainsDistinct(rest);
      BucketKeysDistinct(rest, capacity, lo + 1);
      var head := ChainKeys(bs[0]);
      var tail := BucketKeys(rest);
      var all := head + tail;
      assert BucketKeys(bs) == all;
      assert forall j :: 0 <= j < |head| ==> Hash(head[j], capacity) == lo;
      forall i, j | 0 <= i < j < |all| ensures all[i] != all[j] {
        if j < |head| {
          assert all[i] == bs[0][i].key && all[j] == bs[0][j].key;
        } else if i >= |head| {
          assert all[i] == tail[i - |head|] && all[j] == tail[j - |head|];
        } else {
          assert all[i] == head[i] && all[j] == tail[j - |head|];
        }
      }
      forall k | k in all ensures lo <= Hash(k, capacity) < lo + |bs| {
        if k in head {
          var j :| 0 <= j < |head| && head[j] == k;
        }
      }
    }
  }

  lemma DistinctCard(s: seq<string>)
    requires Distinct(s)
    ensures |set k | k in s| == |s|
  {
    if s != [] {
      var rest := s[1..];
      DistinctCard(rest);
      assert (set k | k in s) == (set k | k in rest) + {s[0]};
      assert s[0] !in rest;
    }
  }

  /** The enumeration lists every stored key exactly once, so its length is `size`. */
  lemma AllKeysSpec<V>(t: Table<V>)
    requires Valid(t)
    ensures Distinct(AllKeys(t))
    ensures forall k :: k in AllKeys(t) <==> k in Keys(t)
    ensures |AllKeys(t)| == t.size
  {
    BucketKeysMembers(t.buckets);
    assert PlacedFrom(t.buckets, t.capacity, 0);
    BucketKeysDistinct(t.buckets, t.capacity, 0);
    DistinctCard(AllKeys(t));
    assert (set k | k in AllKeys(t)) == Keys(t);
  }
}
