/**
 * Object_Hash_Map: the chained hash map each object carries for its
 * attributes and children, and which also serves as the global key map.
 * A map is a value here: a bucket array of chains, each chain a sequence of
 * items with its head first, and no `next` links.
 */
module AttrMap {
  import opened Wrappers
  import opened Words

  /** The identity (address) of a live object node. */
  type NodeId = nat

  /** An Object_Hash_Item: a key and the node it refers to. */
  datatype Item = Item(key: Key, value: NodeId)

  /** One bucket's collision chain, head first. */
  type Chain = seq<Item>

  /** OBJ_DEFAULT_BUCKET_COUNT_LOG2 and the bucket count `1 << 4` it gives. */
  const DEFAULT_BUCKET_COUNT_LOG2: nat := 4
  const DEFAULT_BUCKET_COUNT: nat := 16

  /**
   * `buckets` is None until the bucket array is allocated.  Every map the
   * program builds uses OBJ_DEFAULT_BUCKET_COUNT_LOG2, and the bucket count
   * never grows.
   */
  datatype HashMap = HashMap(buckets: Option<seq<Chain>>, bucketCountLog2: nat, objCount: nat)
  {
    ghost predicate Valid()
    {
      match buckets
      case None => bucketCountLog2 == 0 && objCount == 0
      case Some(chains) =>
        && bucketCountLog2 == DEFAULT_BUCKET_COUNT_LOG2
        && |chains| == DEFAULT_BUCKET_COUNT
        && objCount == |Items(chains)|
        && (forall b, j :: 0 <= b < |chains| && 0 <= j < |chains[b]| ==> chains[b][j].key % DEFAULT_BUCKET_COUNT == b)
    }
  }

  /** A zero-initialised Object_Hash_Map, as `obj_create` and `obj_clear_attr` leave it. */
  const EMPTY: HashMap := HashMap(None, 0, 0)

  /** Every item of every chain, with multiplicity. */
  function Items(chains: seq<Chain>): multiset<Item>
  {
    if chains == [] then multiset{} else multiset(chains[0]) + Items(chains[1..])
  }

  /** Every item of the map. */
  function Contents(m: HashMap): multiset<Item>
  {
    match m.buckets
    case None => multiset{}
    case Some(chains) => Items(chains)
  }

  /** `n` empty chains. */
  function EmptyChains(n: nat): seq<Chain>
  {
    seq(n, _ => [])
  }

  lemma {:induction false} ItemsOfEmptyChains(n: nat)
    ensures Items(EmptyChains(n)) == multiset{}
  {
    if n > 0 {
      assert EmptyChains(n)[1..] == EmptyChains(n - 1);
      ItemsOfEmptyChains(n - 1);
    }
  }

  lemma {:induction false} ItemsOfPrepend(chains: seq<Chain>, b: nat, item: Item)
    requires b < |chains|
    ensures Items(chains[b := [item] + chains[b]]) == Items(chains) + multiset{item}
  {
    var updated := chains[b := [item] + chains[b]];
    if b == 0 {
      assert updated[1..] == chains[1..];
    } else {
      assert updated[1..] == chains[1..][b - 1 := [item] + chains[1..][b - 1]];
      ItemsOfPrepend(chains[1..], b - 1, item);
    }
  }

  /**
   * init_hash_map with OBJ_DEFAULT_BUCKET_COUNT_LOG2, when `calloc` succeeds:
   * sixteen empty chains.
   */
  function Allocated(): (m: HashMap)
    ensures m.Valid() && m.buckets.Some? && Contents(m) == multiset{}
  {
    ItemsOfEmptyChains(DEFAULT_BUCKET_COUNT);
    HashMap(Some(EmptyChains(DEFAULT_BUCKET_COUNT)), DEFAULT_BUCKET_COUNT_LOG2, 0)
  }

  /**
   * `key & ((1 << log2) - 1)`: on a 64-bit two's-complement key this is the
   * key modulo the bucket count.
   */
  function BucketIndex(m: HashMap, key: Key): (b: nat)
    requires m.Valid() && m.buckets.Some?
    ensures b < |m.buckets.value|
  {
    key % DEFAULT_BUCKET_COUNT
  }

  /** The walk of one chain in obj_get_attr_internal: the value of the first item with the key. */
  function ChainFind(c: Chain, key: Key): Option<NodeId>
  {
    if c == [] then None
    else if c[0].key == key then Some(c[0].value)
    else ChainFind(c[1..], key)
  }

  /** The chain walk finds nothing exactly when no item has the key, and otherwise stops at the first item that has it. */
  lemma {:induction false} ChainFindIsFirstMatch(c: Chain, key: Key)
    ensures ChainFind(c, key).None? <==> forall j :: 0 <= j < |c| ==> c[j].key != key
    ensures ChainFind(c, key).Some? ==>
              exists j :: 0 <= j < |c| && c[j] == Item(key, ChainFind(c, key).value)
                          && forall i :: 0 <= i < j ==> c[i].key != key
  {
    if c != [] && c[0].key != key {
      ChainFindIsFirstMatch(c[1..], key);
      assert forall j :: 1 <= j < |c| ==> c[j] == c[1..][j - 1];
      if ChainFind(c, key).Some? {
        var j' :| 0 <= j' < |c[1..]| && c[1..][j'] == Item(key, ChainFind(c, key).value)
                  && forall i :: 0 <= i < j' ==> c[1..][i].key != key;
        assert c[j' + 1] == Item(key, ChainFind(c, key).value);
      }
    } else if c != [] {
      assert c[0] == Item(key, ChainFind(c, key).value);
    }
  }

  /**
   * obj_get_attr_internal: NULL while the buckets are unallocated, otherwise
   * the first match in the key's chain.  Being a function, it cannot change the map.
   */
  function Get(m: HashMap, key: Key): (r: Option<NodeId>)
    requires m.Valid()
    ensures m.buckets.None? ==> r.None?
  {
    match m.buckets
    case None => None
    case Some(chains) => ChainFind(chains[BucketIndex(m, key)], key)
  }

  /** Whatever a lookup returns is an item of the map, stored under the key looked up. */
  lemma GetIsInContents(m: HashMap, key: Key)
    requires m.Valid() && Get(m, key).Some?
    ensures Item(key, Get(m, key).value) in Contents(m)
  {
    var chains := m.buckets.value;
    var b := BucketIndex(m, key);
    ChainFindIsFirstMatch(chains[b], key);
    InItems(chains, b, Item(key, Get(m, key).value));
  }

  lemma {:induction false} InItems(chains: seq<Chain>, b: nat, item: Item)
    requires b < |chains| && item in chains[b]
    ensures item in Items(chains)
  {
    if b > 0 {
      assert chains[1..][b - 1] == chains[b];
      InItems(chains[1..], b - 1, item);
    }
  }

  /**
   * The map half of obj_add_attr_internal: allocates the buckets on first use,
   * then prepends one item to the key's chain and counts it.
   */
  function Add(m: HashMap, key: Key, value: NodeId): (r: HashMap)
    requires m.Valid()
    ensures r.Valid() && r.buckets.Some?
    ensures Contents(r) == Contents(m) + multiset{Item(key, value)}
    ensures r.objCount == m.objCount + 1
  {
    var base := if m.buckets.None? then Allocated() else m;
    var chains := base.buckets.value;
    var b := BucketIndex(base, key);
    ItemsOfPrepend(chains, b, Item(key, value));
    HashMap(Some(chains[b := [Item(key, value)] + chains[b]]), base.bucketCountLog2, base.objCount + 1)
  }

  /**
   * obj_add_attr_internal when the item's malloc fails: the buckets are
   * allocated on first use all the same, and nothing else changes.
   */
  function AddWithoutItem(m: HashMap): (r: HashMap)
    requires m.Valid()
    ensures r.Valid() && r.buckets.Some?
    ensures Contents(r) == Contents(m) && r.objCount == m.objCount
  {
    if m.buckets.None? then Allocated() else m
  }

  /** A failed insertion leaves every lookup as it was. */
  lemma GetAfterFailedAdd(m: HashMap, k: Key)
    requires m.Valid()
    ensures Get(AddWithoutItem(m), k) == Get(m, k)
  {
  }

  /**
   * Lookup after insertion: the item just added shadows every earlier item
   * with its key, and no other key's lookup changes.
   */
  lemma GetAfterAdd(m: HashMap, key: Key, value: NodeId, k: Key)
    requires m.Valid()
    ensures Get(Add(m, key, value), k) == if k == key then Some(value) else Get(m, k)
  {
    var before := if m.buckets.None? then EmptyChains(DEFAULT_BUCKET_COUNT) else m.buckets.value;
    var hb := key % DEFAULT_BUCKET_COUNT;
    var chains := Add(m, key, value).buckets.value;
    assert chains == before[hb := [Item(key, value)] + before[hb]];
    var b := k % DEFAULT_BUCKET_COUNT;
    assert Get(m, k) == ChainFind(before[b], k);
    if b == hb {
      assert chains[b][1..] == before[b];
    } else {
      assert chains[b] == before[b];
    }
  }
}
