/**
 * The object store of obj_tree.c as a mutable runtime: the heap of live
 * nodes, the global key map, the well-known keys and the string type, with
 * creation, reference counting, teardown, attributes and key interning.
 */
module ObjTree {
  import opened Wrappers
  import opened Words
  import opened Char32String
  import opened AttrMap
  import opened ObjNode
  import opened Interning
  import opened KeyNames

  /** How a C function call ends. */
  datatype Outcome<T> = Returned(value: T) | NeverReturns | UndefinedBehaviour

  /** The hash map an obj_add_attr_internal call is given: an object's attributes or the global key map. */
  datatype MapRef = AttrsOf(owner: NodeId) | GlobalKeyMap

  /** The heap after obj_inc_ref(p): p's count is one higher (wrapping); NULL changes nothing. */
  function Retained(nodes: Heap, p: Ptr): Heap
  {
    if p.Some? && p.value in nodes then
      nodes[p.value := nodes[p.value].(refCount := WrapInc(nodes[p.value].refCount))]
    else nodes
  }

  /** The heap after obj_dec_ref(p) when p is not freed: p's count is one lower (wrapping). */
  function Released(nodes: Heap, p: Ptr): Heap
  {
    if p.Some? && p.value in nodes then
      nodes[p.value := nodes[p.value].(refCount := WrapDec(nodes[p.value].refCount))]
    else nodes
  }

  /** The nodes a pointer refers to: one for a non-NULL pointer, none for NULL. */
  function PtrCount(p: Ptr): multiset<NodeId>
  {
    if p.Some? then multiset{p.value} else multiset{}
  }

  /** The nodes the first n pointers of a sequence refer to, with multiplicity. */
  function PtrCounts(ps: seq<Ptr>, n: nat): multiset<NodeId>
    requires n <= |ps|
  {
    if n == 0 then multiset{} else PtrCounts(ps, n - 1) + PtrCount(ps[n - 1])
  }

  /** The values of the entries under the keys `ks`, with multiplicity. */
  ghost function ValueCounts(entries: map<string, Ptr>, ks: set<string>): multiset<NodeId>
    requires ks <= entries.Keys
    decreases ks
  {
    if ks == {} then multiset{}
    else
      var k :| k in ks;
      ValueCounts(entries, ks - {k}) + PtrCount(entries[k])
  }

  /** The values of the first n items of a chain, with multiplicity. */
  function ChainCounts(c: Chain, n: nat): multiset<NodeId>
    requires n <= |c|
  {
    if n == 0 then multiset{} else ChainCounts(c, n - 1) + multiset{c[n - 1].value}
  }

  /** The values of the chains of buckets 0 to n - 1, with multiplicity. */
  function BucketCounts(chains: seq<Chain>, n: nat): multiset<NodeId>
    requires n <= |chains|
  {
    if n == 0 then multiset{} else BucketCounts(chains, n - 1) + ChainCounts(chains[n - 1], |chains[n - 1]|)
  }

  /** The values obj_clear_attr releases: those of buckets 0 to bucket_count_log2 - 1. */
  function ClearedCounts(m: HashMap): multiset<NodeId>
    requires m.Valid()
  {
    match m.buckets
    case None => multiset{}
    case Some(chains) => BucketCounts(chains, m.bucketCountLog2)
  }

  lemma {:induction false} ChainCountsPrepend(item: Item, c: Chain, n: nat)
    requires n <= |c|
    ensures ChainCounts([item] + c, n + 1) == multiset{item.value} + ChainCounts(c, n)
  {
    if n > 0 {
      ChainCountsPrepend(item, c, n - 1);
      assert ([item] + c)[n] == c[n - 1];
    }
  }

  /** BucketCounts over chains that agree on the first n buckets. */
  lemma {:induction false} BucketCountsFrame(before: seq<Chain>, after: seq<Chain>, n: nat)
    requires n <= |before| && n <= |after|
    requires forall i :: 0 <= i < n ==> after[i] == before[i]
    ensures BucketCounts(after, n) == BucketCounts(before, n)
  {
    if n > 0 {
      BucketCountsFrame(before, after, n - 1);
    }
  }

  /** BucketCounts over chains that agree on the first n buckets, except that bucket b < n gained the value v. */
  lemma {:induction false} BucketCountsGrow(before: seq<Chain>, after: seq<Chain>, b: nat, v: NodeId, n: nat)
    requires b < n <= |before| && n <= |after|
    requires forall i :: 0 <= i < n && i != b ==> after[i] == before[i]
    requires ChainCounts(after[b], |after[b]|) == ChainCounts(before[b], |before[b]|) + multiset{v}
    ensures BucketCounts(after, n) == BucketCounts(before, n) + multiset{v}
  {
    if n - 1 == b {
      BucketCountsFrame(before, after, n - 1);
    } else {
      BucketCountsGrow(before, after, b, v, n - 1);
      assert after[n - 1] == before[n - 1];
    }
  }

  lemma {:induction false} BucketCountsOfEmpty(n: nat)
    requires n <= DEFAULT_BUCKET_COUNT
    ensures BucketCounts(EmptyChains(DEFAULT_BUCKET_COUNT), n) == multiset{}
  {
    if n > 0 {
      BucketCountsOfEmpty(n - 1);
    }
  }

  /**
   * What obj_clear_attr releases after one more obj_add_attr_internal: the
   * new value when its key falls in buckets 0 to 3, and nothing more otherwise.
   */
  lemma ClearedAfterAdd(m: HashMap, key: Key, v: NodeId)
    requires m.Valid()
    ensures ClearedCounts(Add(m, key, v)) ==
              ClearedCounts(m) + if key % DEFAULT_BUCKET_COUNT < DEFAULT_BUCKET_COUNT_LOG2 then multiset{v} else multiset{}
  {
    var before := if m.buckets.None? then EmptyChains(DEFAULT_BUCKET_COUNT) else m.buckets.value;
    var b := key % DEFAULT_BUCKET_COUNT;
    var after := Add(m, key, v).buckets.value;
    assert after == before[b := [Item(key, v)] + before[b]];
    ChainCountsPrepend(Item(key, v), before[b], |before[b]|);
    if b < DEFAULT_BUCKET_COUNT_LOG2 {
      BucketCountsGrow(before, after, b, v, DEFAULT_BUCKET_COUNT_LOG2);
    } else {
      BucketCountsFrame(before, after, DEFAULT_BUCKET_COUNT_LOG2);
    }
    if m.buckets.None? {
      BucketCountsOfEmpty(DEFAULT_BUCKET_COUNT_LOG2);
    }
  }

  /**
   * A node whose only attribute is its type: clearing its attributes releases
   * nothing, because OBJ_TYPE_KEY falls in bucket 9.  The type keeps the
   * reference obj_set_type gave it.
   */
  lemma TypeAttributeNeverReleased(t: NodeId)
    ensures var m := Add(EMPTY, TYPE_KEY_VALUE, t);
            Get(m, TYPE_KEY_VALUE) == Some(t) && Item(TYPE_KEY_VALUE, t) in Contents(m) && ClearedCounts(m) == multiset{}
  {
    KeyBuckets();
    ClearedAfterAdd(EMPTY, TYPE_KEY_VALUE, t);
    GetAfterAdd(EMPTY, TYPE_KEY_VALUE, t, TYPE_KEY_VALUE);
  }

  /** The values obj_clear_attr evidently means to release: those of every bucket. */
  function AllBucketCounts(m: HashMap): multiset<NodeId>
    requires m.Valid()
  {
    match m.buckets
    case None => multiset{}
    case Some(chains) => BucketCounts(chains, |chains|)
  }

  /** Clearing every bucket releases each value added once more, whatever bucket its key falls in. */
  lemma AllClearedAfterAdd(m: HashMap, key: Key, v: NodeId)
    requires m.Valid()
    ensures AllBucketCounts(Add(m, key, v)) == AllBucketCounts(m) + multiset{v}
  {
    var before := if m.buckets.None? then EmptyChains(DEFAULT_BUCKET_COUNT) else m.buckets.value;
    var b := key % DEFAULT_BUCKET_COUNT;
    var after := Add(m, key, v).buckets.value;
    assert after == before[b := [Item(key, v)] + before[b]];
    ChainCountsPrepend(Item(key, v), before[b], |before[b]|);
    BucketCountsGrow(before, after, b, v, DEFAULT_BUCKET_COUNT);
    if m.buckets.None? {
      BucketCountsOfEmpty(DEFAULT_BUCKET_COUNT);
    }
  }

  /** Clearing every bucket would release the type a node was given. */
  lemma TypeAttributeReleasedByFullClear(t: NodeId)
    ensures AllBucketCounts(Add(EMPTY, TYPE_KEY_VALUE, t)) == multiset{t}
  {
    AllClearedAfterAdd(EMPTY, TYPE_KEY_VALUE, t);
  }

  /** Releasing each node `counts` times leaves every live node's count above 0: nothing is freed. */
  ghost predicate Survives(nodes: Heap, counts: multiset<NodeId>)
  {
    forall id {:trigger nodes[id].refCount} :: id in nodes && id in counts ==> counts[id] < nodes[id].refCount
  }

  /** The heap after each live node has been released as often as `counts` says, without reaching 0. */
  ghost function ReleasedBy(nodes: Heap, counts: multiset<NodeId>): Heap
    requires Survives(nodes, counts)
  {
    map id | id in nodes :: if id in counts then nodes[id].(refCount := nodes[id].refCount - counts[id]) else nodes[id]
  }

  lemma SurvivesSub(nodes: Heap, small: multiset<NodeId>, big: multiset<NodeId>)
    requires Survives(nodes, big) && small <= big
    ensures Survives(nodes, small)
  {
  }

  lemma ReleasedByNothing(nodes: Heap)
    ensures Survives(nodes, multiset{}) && ReleasedBy(nodes, multiset{}) == nodes
  {
  }

  /**
   * One more release, on top of `counts`, of a pointer that still survives
   * it: the count is at least 2 beforehand, so obj_dec_ref only decrements it.
   */
  lemma ReleaseOneMore(nodes: Heap, counts: multiset<NodeId>, p: Ptr)
    requires Survives(nodes, counts + PtrCount(p))
    ensures Survives(nodes, counts)
    ensures p.Some? && p.value in nodes ==> ReleasedBy(nodes, counts)[p.value].refCount >= 2
    ensures Released(ReleasedBy(nodes, counts), p) == ReleasedBy(nodes, counts + PtrCount(p))
  {
    SurvivesSub(nodes, counts, counts + PtrCount(p));
    var before := ReleasedBy(nodes, counts);
    var after := ReleasedBy(nodes, counts + PtrCount(p));
    if p.Some? && p.value in nodes {
      var x := p.value;
      assert (counts + PtrCount(p))[x] == counts[x] + 1;
      assert before[x].refCount == nodes[x].refCount - counts[x];
      assert Released(before, p).Keys == after.Keys;
      forall id | id in after
        ensures Released(before, p)[id] == after[id]
      {
        if id != x {
          assert (counts + PtrCount(p))[id] == counts[id];
        }
      }
    } else {
      forall id | id in after
        ensures before[id] == after[id]
      {
        assert (counts + PtrCount(p))[id] == counts[id];
      }
    }
  }

  lemma GrowsBy(a: multiset<NodeId>, x: multiset<NodeId>)
    ensures a <= a + x
  {
  }

  /** The nodes a prefix of a vector refers to survive whenever those of a longer prefix do. */
  lemma {:induction false} PtrPrefixSurvives(base: Heap, ps: seq<Ptr>, i: nat, n: nat)
    requires i <= n <= |ps| && Survives(base, PtrCounts(ps, n))
    ensures Survives(base, PtrCounts(ps, i))
  {
    if i < n {
      GrowsBy(PtrCounts(ps, n - 1), PtrCount(ps[n - 1]));
      SurvivesSub(base, PtrCounts(ps, n - 1), PtrCounts(ps, n));
      PtrPrefixSurvives(base, ps, i, n - 1);
    }
  }

  /** One step of a release loop over a vector: the elements released so far, plus the next one, still survive. */
  lemma PtrCountsStep(base: Heap, ps: seq<Ptr>, i: nat, survive: bool)
    requires i < |ps| && (survive ==> Survives(base, PtrCounts(ps, |ps|)))
    ensures PtrCounts(ps, i + 1) == PtrCounts(ps, i) + PtrCount(ps[i])
    ensures survive ==> Survives(base, PtrCounts(ps, i + 1)) && Survives(base, PtrCounts(ps, i))
  {
    if survive {
      PtrPrefixSurvives(base, ps, i + 1, |ps|);
      PtrPrefixSurvives(base, ps, i, |ps|);
    }
  }

  lemma {:induction false} ChainCountsMono(c: Chain, i: nat, n: nat)
    requires i <= n <= |c|
    ensures ChainCounts(c, i) <= ChainCounts(c, n)
    decreases n - i
  {
    if i < n {
      ChainCountsMono(c, i + 1, n);
    }
  }

  /** One step of the chain loop: the items released so far, plus the next one, still survive. */
  lemma ChainCountsStep(base: Heap, c: Chain, counts: multiset<NodeId>, j: nat, survive: bool)
    requires j < |c| && (survive ==> Survives(base, counts + ChainCounts(c, |c|)))
    ensures counts + ChainCounts(c, j + 1) == counts + ChainCounts(c, j) + PtrCount(Some(c[j].value))
    ensures survive ==> Survives(base, counts + ChainCounts(c, j + 1)) && Survives(base, counts + ChainCounts(c, j))
  {
    ChainCountsMono(c, j + 1, |c|);
    if survive {
      SurvivesSub(base, counts + ChainCounts(c, j + 1), counts + ChainCounts(c, |c|));
      SurvivesSub(base, counts + ChainCounts(c, j), counts + ChainCounts(c, j + 1));
    }
  }

  /** One step of the bucket loop: the buckets released so far, plus the next chain, still survive. */
  lemma BucketCountsStep(base: Heap, chains: seq<Chain>, i: nat, n: nat, survive: bool)
    requires i < n <= |chains| && (survive ==> Survives(base, BucketCounts(chains, n)))
    ensures BucketCounts(chains, i + 1) == BucketCounts(chains, i) + ChainCounts(chains[i], |chains[i]|)
    ensures survive ==> Survives(base, BucketCounts(chains, i + 1)) && Survives(base, BucketCounts(chains, i))
  {
    BucketCountsMono(chains, i + 1, n);
    if survive {
      SurvivesSub(base, BucketCounts(chains, i + 1), BucketCounts(chains, n));
      SurvivesSub(base, BucketCounts(chains, i), BucketCounts(chains, i + 1));
    }
  }

  lemma {:induction false} BucketCountsMono(chains: seq<Chain>, i: nat, n: nat)
    requires i <= n <= |chains|
    ensures BucketCounts(chains, i) <= BucketCounts(chains, n)
    decreases n - i
  {
    if i < n {
      BucketCountsMono(chains, i + 1, n);
    }
  }

  lemma {:induction false} ValueCountsRemove(entries: map<string, Ptr>, ks: set<string>, k: string)
    requires ks <= entries.Keys && k in ks
    ensures ValueCounts(entries, ks) == ValueCounts(entries, ks - {k}) + PtrCount(entries[k])
    decreases ks
  {
    var k' :| k' in ks && ValueCounts(entries, ks) == ValueCounts(entries, ks - {k'}) + PtrCount(entries[k']);
    if k' != k {
      ValueCountsRemove(entries, ks - {k'}, k);
      ValueCountsRemove(entries, ks - {k}, k');
      assert ks - {k'} - {k} == ks - {k} - {k'};
    }
  }

  lemma {:induction false} ValueCountsMono(entries: map<string, Ptr>, small: set<string>, big: set<string>)
    requires small <= big <= entries.Keys
    ensures ValueCounts(entries, small) <= ValueCounts(entries, big)
    decreases big
  {
    if small != big {
      assert !(big <= small);
      var x :| x in big && x !in small;
      ValueCountsRemove(entries, big, x);
      ValueCountsMono(entries, small, big - {x});
    }
  }

  /** The nodes left in `after` differ from those in `before` at most in their counts. */
  ghost predicate CountsOnly(before: Heap, after: Heap)
  {
    && after.Keys <= before.Keys
    && forall id {:trigger after[id]} :: id in after ==>
         && after[id].attrs == before[id].attrs
         && after[id].data == before[id].data
         && after[id].dataSize == before[id].dataSize
         && after[id].parent == before[id].parent
  }

  /** As CountsOnly, except for node x. */
  ghost predicate CountsOnlyExcept(before: Heap, after: Heap, x: NodeId)
  {
    && after.Keys <= before.Keys
    && forall id {:trigger after[id]} :: id in after && id != x ==>
         && after[id].attrs == before[id].attrs
         && after[id].data == before[id].data
         && after[id].dataSize == before[id].dataSize
         && after[id].parent == before[id].parent
  }

  /** obj_dec_ref(p) frees p: a live node whose count drops from 1 to 0, not already being torn down. */
  predicate Frees(nodes: Heap, tearingDown: set<NodeId>, p: Ptr)
  {
    p.Some? && p.value in nodes && nodes[p.value].refCount == 1 && p.value !in tearingDown
  }

  /** The heap after obj_add_attr_internal has prepended key -> value to owner's attributes. */
  function WithAttr(nodes: Heap, owner: NodeId, key: Key, value: NodeId): (r: Heap)
    requires AttrsValid(nodes) && owner in nodes
    ensures AttrsValid(r) && r.Keys == nodes.Keys
  {
    nodes[owner := nodes[owner].(attrs := Add(nodes[owner].attrs, key, value))]
  }

  /** obj_add_attr_internal can act: the value is live, and so is the owner of the target map. */
  predicate Targets(nodes: Heap, target: MapRef, value: NodeId)
  {
    value in nodes && (target.AttrsOf? ==> target.owner in nodes)
  }

  /**
   * The node obj_attr_hash_string adds for a string it has not seen: a copy
   * of the string, typed with the string type when there is one, and counted
   * once, by the key map.
   */
  function InternedNode(str: seq<Char32>, typeKey: Key, stringType: Ptr): Node
    requires Terminated(str, 0)
  {
    var attrs := if stringType.Some? then Add(EMPTY, typeKey, stringType.value) else EMPTY;
    NewNode(4 * (Strlen(str, 0) + 1), 4).(attrs := attrs, data := Str(Copy(str, 0)), refCount := 1)
  }

  /** The probe an interning call runs, from the start key its hash gave (None: the hash call is undefined behaviour). */
  function ProbeOf(t: KeyTable, s: Seeker, start: Option<Key>): Probe
    requires t.Valid()
  {
    if start.None? then Undefined else ProbeFrom(t, s, start.value, 0)
  }

  /** How an interning call ends: the key found or filled in, or no key at all. */
  function InternOutcome(t: KeyTable, s: Seeker, start: Option<Key>): Outcome<Key>
    requires t.Valid()
  {
    var p := ProbeOf(t, s, start);
    if p.Found? || p.Vacant? then Returned(p.key)
    else if p.Spins? then NeverReturns
    else UndefinedBehaviour
  }

  /** `OBJ_KEY_HASH_FLAG | key` on the key a call returns. */
  function Flagged(o: Outcome<Key>): Outcome<Key>
  {
    if o.Returned? then Returned(WithHashFlag(o.value)) else o
  }

  /**
   * The hash-consing guarantee, in both directions: obj_attr_hash_string
   * gives two equal strings the same outcome, and two strings it resolves to
   * the same existing key are equal.
   */
  lemma HashStringConsing(t: KeyTable, a: seq<Char32>, b: seq<Char32>)
    requires t.Valid() && Terminated(a, 0) && Terminated(b, 0)
    ensures Text(a) == Text(b) ==>
              InternOutcome(t, StringSeeker(a), Some(HashString(a))) == InternOutcome(t, StringSeeker(b), Some(HashString(b)))
    ensures ProbeFrom(t, StringSeeker(a), HashString(a), 0).Found? && ProbeFrom(t, StringSeeker(b), HashString(b), 0).Found?
            && ProbeFrom(t, StringSeeker(a), HashString(a), 0).key == ProbeFrom(t, StringSeeker(b), HashString(b), 0).key
            ==> Text(a) == Text(b)
  {
    if Text(a) == Text(b) {
      HashDependsOnTextOnly(a, b);
      ProbeSameText(t, a, b, HashString(a), 0);
    }
    var pa := ProbeFrom(t, StringSeeker(a), HashString(a), 0);
    var pb := ProbeFrom(t, StringSeeker(b), HashString(b), 0);
    if pa.Found? && pb.Found? && pa.key == pb.key {
      SameKeySameString(t, a, b, HashString(a), HashString(b), pa.key);
    }
  }

  /**
   * Interning a node is idempotent: once the node is in the key map at the
   * vacant key its probe ended on, the same probe finds it there.
   */
  lemma ReprobeFindsInternedNode(t: KeyTable, u: KeyTable, obj: NodeId, eq: Option<Payload>, start: Key, key: Key)
    requires t.Valid() && u.Valid() && obj in t.nodes
    requires ProbeFrom(t, NodeSeeker(obj, eq), start, 0) == Vacant(key)
    requires u.typeKey == t.typeKey && u.stringType == t.stringType
    requires u.keyMap == Add(t.keyMap, key, obj) && u.nodes == Retained(t.nodes, Some(obj))
    ensures ProbeFrom(u, NodeSeeker(obj, eq), start, 0) == Found(key)
  {
    assert Extends(t, u);
    ReprobeFindsInsertion(t, u, NodeSeeker(obj, eq), start, 0, key, obj);
  }

  /** The node obj_attr_hash_string adds is one the string probe judges equal to the string. */
  lemma InternedNodeMatches(t: KeyTable, str: seq<Char32>, n: NodeId)
    requires t.Valid() && Terminated(str, 0) && n in t.nodes
    requires t.nodes[n] == InternedNode(str, t.typeKey, t.stringType)
    ensures Inspect(t, StringSeeker(str), n) == Equal
  {
    if t.stringType.Some? {
      GetAfterAdd(EMPTY, t.typeKey, t.stringType.value, t.typeKey);
    }
    CopyKeepsText(str);
    CompareEqIsTextEquality(str, Copy(str, 0), 0);
  }

  /** The heap steps of AddInternedString: create, set the type, count the key map's reference. */
  lemma InternedHeap(before: Heap, id: NodeId, str: seq<Char32>, typeKey: Key, stringType: Ptr)
    requires AttrsValid(before) && id !in before && Terminated(str, 0)
    requires stringType.None? || stringType.value in before
    ensures var created := before[id := NewNode(4 * (Strlen(str, 0) + 1), 4).(data := Str(Copy(str, 0)))];
            AttrsValid(created) &&
            var typed := if stringType.Some? then Retained(WithAttr(created, id, typeKey, stringType.value), stringType) else created;
            Retained(typed, Some(id)) == Retained(before, stringType)[id := InternedNode(str, typeKey, stringType)]
  {
    var created := before[id := NewNode(4 * (Strlen(str, 0) + 1), 4).(data := Str(Copy(str, 0)))];
    var typed := if stringType.Some? then Retained(WithAttr(created, id, typeKey, stringType.value), stringType) else created;
    var final := Retained(typed, Some(id));
    var expected := Retained(before, stringType)[id := InternedNode(str, typeKey, stringType)];
    assert final.Keys == expected.Keys;
    forall x | x in final
      ensures final[x] == expected[x]
    {
    }
  }

  /**
   * Interning a string is idempotent: once its node is in the key map at the
   * vacant key the probe ended on, the same probe finds it there.
   */
  lemma ReprobeFindsInternedString(t: KeyTable, u: KeyTable, str: seq<Char32>, start: Key, key: Key, id: NodeId)
    requires t.Valid() && u.Valid() && Terminated(str, 0) && id !in t.nodes
    requires ProbeFrom(t, StringSeeker(str), start, 0) == Vacant(key)
    requires t.stringType.None? || t.stringType.value in t.nodes
    requires u.typeKey == t.typeKey && u.stringType == t.stringType
    requires u.keyMap == Add(t.keyMap, key, id)
    requires u.nodes == Retained(t.nodes, t.stringType)[id := InternedNode(str, t.typeKey, t.stringType)]
    ensures ProbeFrom(u, StringSeeker(str), start, 0) == Found(key)
  {
    InternedNodeMatches(u, str, id);
    assert Extends(t, u);
    ReprobeFindsInsertion(t, u, StringSeeker(str), start, 0, key, id);
  }

  /** Adding one item to a map where every lookup fails gives a map that holds that item alone. */
  lemma SingleEntry(m: HashMap, key: Key, v: NodeId)
    requires m.Valid() && forall k :: Get(m, k).None?
    ensures forall k :: Get(Add(m, key, v), k) == if k == key then Some(v) else None
  {
    forall k
      ensures Get(Add(m, key, v), k) == if k == key then Some(v) else None
    {
      GetAfterAdd(m, key, v, k);
    }
  }

  /**
   * The heap after obj_init_key_map has made the name and closure nodes of
   * the hash and equality functions at addresses n to n + 3.
   */
  function FunctionNodesHeap(before: Heap, n: NodeId): (h: Heap)
    requires AttrsValid(before)
    ensures AttrsValid(h) && {n, n + 1, n + 2, n + 3} <= h.Keys
  {
    before[n := Node(EMPTY, None, KeyWord(HASH_FUNCTION_KEY_VALUE), 0, 0)]
          [n + 1 := Node(EMPTY, None, Closure(HashChar32String), 0, 0)]
          [n + 2 := Node(EMPTY, None, KeyWord(COMPARE_EQ_FUNCTION_KEY_VALUE), 0, 0)]
          [n + 3 := Node(EMPTY, None, Closure(CompareEqChar32String), 0, 0)]
  }

  /**
   * The heap after the string type (n + 5) is made: both name nodes get it
   * as their type, and its attributes hold both closures, each counted once more.
   */
  function StringTypeHeap(h: Heap, n: NodeId): Heap
    requires AttrsValid(h) && {n, n + 1, n + 2, n + 3} <= h.Keys
  {
    h[n := h[n].(attrs := Add(h[n].attrs, TYPE_KEY_VALUE, n + 5))]
     [n + 2 := h[n + 2].(attrs := Add(h[n + 2].attrs, TYPE_KEY_VALUE, n + 5))]
     [n + 5 := Node(Add(Add(EMPTY, HASH_FUNCTION_KEY_VALUE, n + 1), COMPARE_EQ_FUNCTION_KEY_VALUE, n + 3), None, NoData, 0, 2)]
     [n + 1 := h[n + 1].(refCount := WrapInc(h[n + 1].refCount))]
     [n + 3 := h[n + 3].(refCount := WrapInc(h[n + 3].refCount))]
  }

  /** The heap after the type-key node (n + 4) and then the string type are made. */
  function TypeNodesHeap(h: Heap, n: NodeId): Heap
    requires AttrsValid(h) && {n, n + 1, n + 2, n + 3} <= h.Keys
  {
    StringTypeHeap(h[n + 4 := Node(EMPTY, None, KeyWord(TYPE_KEY_VALUE), 0, 1)], n)
  }

  /** The heap after the bootstrap part of obj_init_key_map, from `before` with `n` as the next fresh address. */
  function BootstrapHeap(before: Heap, n: NodeId): Heap
    requires AttrsValid(before)
  {
    TypeNodesHeap(FunctionNodesHeap(before, n), n)
  }

  /**
   * The heap obj_init_key_map leaves, from `before` with `n` as the next fresh
   * address: the bootstrap nodes, then the interned name of the destructor
   * key at n + 6, whose type counts the string type once more.
   */
  function InitHeap(before: Heap, n: NodeId): Heap
    requires AttrsValid(before)
  {
    Retained(BootstrapHeap(before, n), Some(n + 5))[n + 6 := DestructNameNode(n)]
  }

  /** The string node obj_init_key_map interns for the destructor key's name, typed with the string type n + 5. */
  function DestructNameNode(n: NodeId): Node
  {
    Node(Add(EMPTY, TYPE_KEY_VALUE, n + 5), None, Str(OBJ_DESTRUCT_FUNCTION + [0]), 0, 1)
  }

  /** The destructor name node is what interning OBJ_KEY_DESTRUCT_FUNCTION adds, its copy holding the same code units. */
  lemma DestructNameInterned(n: NodeId)
    ensures Terminated(OBJ_DESTRUCT_FUNCTION + [0], 0)
    ensures InternedNode(OBJ_DESTRUCT_FUNCTION + [0], TYPE_KEY_VALUE, Some(n + 5)) == DestructNameNode(n)
  {
    DestructFunctionKey();
    assert Copy(OBJ_DESTRUCT_FUNCTION + [0], 0) == OBJ_DESTRUCT_FUNCTION + [0];
  }

  /** The key map once the destructor name is added to the one holding only the type-key node. */
  lemma BootstrapKeys(before: HashMap, after: HashMap, n: NodeId)
    requires before.Valid() && after == Add(before, DESTRUCT_FUNCTION_KEY_VALUE, n + 6)
    requires forall k :: Get(before, k) == if k == TYPE_KEY_VALUE then Some(n + 4) else None
    ensures forall k :: Get(after, k) == if k == TYPE_KEY_VALUE then Some(n + 4)
                                        else if k == DESTRUCT_FUNCTION_KEY_VALUE then Some(n + 6)
                                        else None
  {
    forall k
      ensures Get(after, k) == if k == TYPE_KEY_VALUE then Some(n + 4)
                               else if k == DESTRUCT_FUNCTION_KEY_VALUE then Some(n + 6)
                               else None
    {
      GetAfterAdd(before, DESTRUCT_FUNCTION_KEY_VALUE, n + 6, k);
    }
  }

  /**
   * The table after obj_init_key_map: the heap above, the bootstrap keys,
   * and a key map that holds the type-key node and the destructor key's
   * name and nothing else.
   */
  ghost predicate Initialised(t: KeyTable, before: Heap, n: NodeId)
  {
    && AttrsValid(before)
    && t.Valid()
    && t.nodes == InitHeap(before, n)
    && t.typeKey == TYPE_KEY_VALUE
    && t.stringType == Some(n + 5)
    && forall k :: Get(t.keyMap, k) == if k == TYPE_KEY_VALUE then Some(n + 4)
                                       else if k == DESTRUCT_FUNCTION_KEY_VALUE then Some(n + 6)
                                       else None
  }

  /**
   * When obj_init_key_map interns the destructor key's name, only the type
   * key is in the key map, in another bucket: the probe stops at once, on the
   * string's own hash.
   */
  lemma DestructKeyVacant(t: KeyTable, typeObj: NodeId)
    requires t.Valid() && forall k :: Get(t.keyMap, k) == if k == TYPE_KEY_VALUE then Some(typeObj) else None
    ensures Terminated(OBJ_DESTRUCT_FUNCTION + [0], 0)
    ensures HashString(OBJ_DESTRUCT_FUNCTION + [0]) == DESTRUCT_FUNCTION_KEY_VALUE
    ensures ProbeFrom(t, StringSeeker(OBJ_DESTRUCT_FUNCTION + [0]), DESTRUCT_FUNCTION_KEY_VALUE, 0) == Vacant(DESTRUCT_FUNCTION_KEY_VALUE)
  {
    DestructFunctionKey();
    ProbeStep(t, StringSeeker(OBJ_DESTRUCT_FUNCTION + [0]), DESTRUCT_FUNCTION_KEY_VALUE, 0);
    assert (DESTRUCT_FUNCTION_KEY_VALUE + 0) % WORD_MODULUS == DESTRUCT_FUNCTION_KEY_VALUE;
  }

  /**
   * After obj_init_key_map the name nodes of the hash and equality functions
   * hold their keys, yet neither key is in the key map: the two names were
   * never interned, so interning either name later adds a second node for it.
   */
  lemma InitFunctionNamesUnregistered(t: KeyTable, before: Heap, n: NodeId)
    requires Initialised(t, before, n)
    ensures t.nodes[n].data == KeyWord(HASH_FUNCTION_KEY_VALUE) && t.nodes[n + 2].data == KeyWord(COMPARE_EQ_FUNCTION_KEY_VALUE)
    ensures Get(t.keyMap, HASH_FUNCTION_KEY_VALUE).None? && Get(t.keyMap, COMPARE_EQ_FUNCTION_KEY_VALUE).None?
  {
    InitNameData(before, n);
  }

  lemma InitNameData(before: Heap, n: NodeId)
    requires AttrsValid(before)
    ensures n in InitHeap(before, n) && n + 2 in InitHeap(before, n)
    ensures InitHeap(before, n)[n].data == KeyWord(HASH_FUNCTION_KEY_VALUE)
    ensures InitHeap(before, n)[n + 2].data == KeyWord(COMPARE_EQ_FUNCTION_KEY_VALUE)
  {
    var f := FunctionNodesHeap(before, n);
    var g := f[n + 4 := Node(EMPTY, None, KeyWord(TYPE_KEY_VALUE), 0, 1)];
    assert g[n].data == KeyWord(HASH_FUNCTION_KEY_VALUE) && g[n + 2].data == KeyWord(COMPARE_EQ_FUNCTION_KEY_VALUE);
    var st := StringTypeHeap(g, n);
    assert st[n].data == g[n].data && st[n + 2].data == g[n + 2].data;
    assert BootstrapHeap(before, n) == st;
  }

  /**
   * The reference counts obj_init_key_map leaves: the string type is counted
   * by both name nodes and by the interned destructor name; each closure
   * node by the string type; the type-key node and the destructor name by
   * the key map; the two name nodes by nothing.
   */
  lemma InitCounts(t: KeyTable, before: Heap, n: NodeId)
    requires Initialised(t, before, n)
    ensures t.nodes[n + 5].refCount == 3
    ensures t.nodes[n + 1].refCount == 1 && t.nodes[n + 3].refCount == 1
    ensures t.nodes[n + 4].refCount == 1 && t.nodes[n + 6].refCount == 1
    ensures t.nodes[n].refCount == 0 && t.nodes[n + 2].refCount == 0
  {
  }

  /**
   * Every string node typed by obj_init_key_map (the two function names and
   * the destructor name) resolves the hash and equality closures through its
   * type, as obj_attr_key_hash needs.
   */
  lemma InitStringMethods(t: KeyTable, before: Heap, n: NodeId, id: NodeId)
    requires Initialised(t, before, n) && (id == n || id == n + 2 || id == n + 6)
    ensures id in t.nodes && TypeOf(t.nodes, TYPE_KEY_VALUE, id) == Some(n + 5)
    ensures QueryMethod(t.nodes, TYPE_KEY_VALUE, id, HASH_FUNCTION_KEY_VALUE) == Some(Closure(HashChar32String))
    ensures QueryMethod(t.nodes, TYPE_KEY_VALUE, id, COMPARE_EQ_FUNCTION_KEY_VALUE) == Some(Closure(CompareEqChar32String))
  {
    InitShape(t, before, n);
    StringTypedResolves(t.nodes, n, id);
  }

  /** The attributes and payloads of the nodes obj_init_key_map makes. */
  lemma InitShape(t: KeyTable, before: Heap, n: NodeId)
    requires Initialised(t, before, n)
    ensures {n, n + 1, n + 2, n + 3, n + 4, n + 5, n + 6} <= t.nodes.Keys
    ensures t.nodes[n].attrs == Add(EMPTY, TYPE_KEY_VALUE, n + 5)
    ensures t.nodes[n + 2].attrs == Add(EMPTY, TYPE_KEY_VALUE, n + 5)
    ensures t.nodes[n + 6].attrs == Add(EMPTY, TYPE_KEY_VALUE, n + 5)
    ensures t.nodes[n + 5].attrs == Add(Add(EMPTY, HASH_FUNCTION_KEY_VALUE, n + 1), COMPARE_EQ_FUNCTION_KEY_VALUE, n + 3)
    ensures t.nodes[n + 1].data == Closure(HashChar32String) && t.nodes[n + 3].data == Closure(CompareEqChar32String)
  {
    var g := FunctionNodesHeap(before, n)[n + 4 := Node(EMPTY, None, KeyWord(TYPE_KEY_VALUE), 0, 1)];
    assert g[n].attrs == EMPTY && g[n + 2].attrs == EMPTY;
    assert g[n + 1].data == Closure(HashChar32String) && g[n + 3].data == Closure(CompareEqChar32String);
    assert t.nodes == Retained(StringTypeHeap(g, n), Some(n + 5))[n + 6 := DestructNameNode(n)];
  }

  /** A node typed with the string type, on a heap where that type holds the two closures, resolves both. */
  lemma StringTypedResolves(nodes: Heap, n: NodeId, id: NodeId)
    requires AttrsValid(nodes) && {n + 1, n + 3, n + 5, id} <= nodes.Keys
    requires nodes[id].attrs == Add(EMPTY, TYPE_KEY_VALUE, n + 5)
    requires nodes[n + 5].attrs == Add(Add(EMPTY, HASH_FUNCTION_KEY_VALUE, n + 1), COMPARE_EQ_FUNCTION_KEY_VALUE, n + 3)
    requires nodes[n + 1].data == Closure(HashChar32String) && nodes[n + 3].data == Closure(CompareEqChar32String)
    ensures TypeOf(nodes, TYPE_KEY_VALUE, id) == Some(n + 5)
    ensures QueryMethod(nodes, TYPE_KEY_VALUE, id, HASH_FUNCTION_KEY_VALUE) == Some(Closure(HashChar32String))
    ensures QueryMethod(nodes, TYPE_KEY_VALUE, id, COMPARE_EQ_FUNCTION_KEY_VALUE) == Some(Closure(CompareEqChar32String))
  {
    StringTypedAttrs(n + 5);
    StringTypeAttrs(n + 1, n + 3);
  }

  /** The attributes of a node whose only attribute is its type. */
  lemma StringTypedAttrs(st: NodeId)
    ensures var attrs := Add(EMPTY, TYPE_KEY_VALUE, st);
            && Get(attrs, TYPE_KEY_VALUE) == Some(st)
            && Get(attrs, HASH_FUNCTION_KEY_VALUE).None? && Get(attrs, COMPARE_EQ_FUNCTION_KEY_VALUE).None?
  {
    GetAfterAdd(EMPTY, TYPE_KEY_VALUE, st, TYPE_KEY_VALUE);
    GetAfterAdd(EMPTY, TYPE_KEY_VALUE, st, HASH_FUNCTION_KEY_VALUE);
    GetAfterAdd(EMPTY, TYPE_KEY_VALUE, st, COMPARE_EQ_FUNCTION_KEY_VALUE);
  }

  /** The attributes of the string type: the hash closure, then the equality closure. */
  lemma StringTypeAttrs(hashFunc: NodeId, compareEqFunc: NodeId)
    ensures var attrs := Add(Add(EMPTY, HASH_FUNCTION_KEY_VALUE, hashFunc), COMPARE_EQ_FUNCTION_KEY_VALUE, compareEqFunc);
            && Get(attrs, HASH_FUNCTION_KEY_VALUE) == Some(hashFunc)
            && Get(attrs, COMPARE_EQ_FUNCTION_KEY_VALUE) == Some(compareEqFunc)
  {
    var withHash := Add(EMPTY, HASH_FUNCTION_KEY_VALUE, hashFunc);
    GetAfterAdd(EMPTY, HASH_FUNCTION_KEY_VALUE, hashFunc, HASH_FUNCTION_KEY_VALUE);
    GetAfterAdd(withHash, COMPARE_EQ_FUNCTION_KEY_VALUE, compareEqFunc, HASH_FUNCTION_KEY_VALUE);
    GetAfterAdd(withHash, COMPARE_EQ_FUNCTION_KEY_VALUE, compareEqFunc, COMPARE_EQ_FUNCTION_KEY_VALUE);
  }

  /**
   * Interning the destructor key's name again finds the node
   * obj_init_key_map made for it, at the same key.
   */
  lemma InitDestructNameFound(t: KeyTable, before: Heap, n: NodeId)
    requires Initialised(t, before, n)
    ensures Terminated(OBJ_DESTRUCT_FUNCTION + [0], 0)
    ensures ProbeFrom(t, StringSeeker(OBJ_DESTRUCT_FUNCTION + [0]), HashString(OBJ_DESTRUCT_FUNCTION + [0]), 0)
            == Found(DESTRUCT_FUNCTION_KEY_VALUE)
  {
    DestructFunctionKey();
    var s := StringSeeker(OBJ_DESTRUCT_FUNCTION + [0]);
    ProbeStep(t, s, DESTRUCT_FUNCTION_KEY_VALUE, 0);
    assert (DESTRUCT_FUNCTION_KEY_VALUE + 0) % WORD_MODULUS == DESTRUCT_FUNCTION_KEY_VALUE;
    InternedNodeMatches(t, OBJ_DESTRUCT_FUNCTION + [0], n + 6);
  }

  /**
   * After obj_init_key_map, obj_attr_hash_string on the name of the type
   * key never returns: the entry at that key is the type-key node, which has
   * no type, so the loop takes its `continue` without moving to the next key.
   */
  lemma InitTypeNameSpins(t: KeyTable, before: Heap, n: NodeId)
    requires Initialised(t, before, n)
    ensures Terminated(OBJ_TYPE + [0], 0)
    ensures ProbeFrom(t, StringSeeker(OBJ_TYPE + [0]), HashString(OBJ_TYPE + [0]), 0) == Spins
  {
    ObjTypeKey();
    var s := StringSeeker(OBJ_TYPE + [0]);
    ProbeStepStuck(t, s, TYPE_KEY_VALUE, 0);
    assert (TYPE_KEY_VALUE + 0) % WORD_MODULUS == TYPE_KEY_VALUE;
    assert t.nodes[n + 4].attrs == EMPTY;
    assert Inspect(t, s, n + 4) == TypeMismatch;
  }

  /**
   * With the intended probe, interning the type key's name after
   * obj_init_key_map passes over the untyped type-key node and stops at the
   * next key, which is free.
   */
  lemma InitTypeNameInternsPastMismatch(t: KeyTable, before: Heap, n: NodeId)
    requires Initialised(t, before, n)
    ensures Terminated(OBJ_TYPE + [0], 0)
    ensures ProbePastMismatch(t, StringSeeker(OBJ_TYPE + [0]), HashString(OBJ_TYPE + [0]), 0) == Vacant(TYPE_KEY_VALUE + 1)
  {
    ObjTypeKey();
    var s := StringSeeker(OBJ_TYPE + [0]);
    assert t.nodes[n + 4].attrs == EMPTY;
    assert Inspect(t, s, n + 4) == TypeMismatch;
    assert (TYPE_KEY_VALUE + 0) % WORD_MODULUS == TYPE_KEY_VALUE;
    PastMismatchStepOn(t, s, TYPE_KEY_VALUE, 0, n + 4);
    assert (TYPE_KEY_VALUE + 1) % WORD_MODULUS == TYPE_KEY_VALUE + 1;
    PastMismatchStepFree(t, s, TYPE_KEY_VALUE, 1);
  }

  /** Three single-node updates of a heap, of which the last two also overwrite the fresh node st, compose into one. */
  lemma UpdatesCompose(h: Heap, a: NodeId, b: NodeId, st: NodeId, fa: Node, fb: Node, s0: Node, s1: Node, s2: Node,
                       n0: Heap, n1: Heap, n2: Heap)
    requires a != b && a != st && b != st
    requires n0 == h[st := s0] && n1 == n0[a := fa][st := s1] && n2 == n1[b := fb][st := s2]
    ensures n2 == h[a := fa][b := fb][st := s2]
  {
  }

  class Runtime {
    /** The live nodes, by address. */
    var nodes: Heap
    /** The next fresh address; addresses are never reused. */
    var nextId: NodeId
    /** obj_key_map */
    var keyMap: HashMap
    /** OBJ_TYPE_KEY */
    var typeKey: Key
    /** OBJ_KEY_HASH_FUNCTION_KEY */
    var hashFunctionKey: Key
    /** OBJ_KEY_COMPARE_EQ_FUNCTION_KEY */
    var compareEqFunctionKey: Key
    /** OBJ_DESTRUCT_FUNCTION_KEY */
    var destructFunctionKey: Key
    /** obj_char32_string_type_obj */
    var stringType: Ptr
    /** The nodes whose obj_free is in progress. */
    var tearingDown: set<NodeId>
    /** Every destructor call so far: the node torn down and the closure payload resolved for it. */
    ghost var destructorCalls: seq<(NodeId, Payload)>
    /** The nodes obj_reset has run on. */
    ghost var destroyed: set<NodeId>

    ghost predicate Valid()
      reads this
    {
      && AttrsValid(nodes)
      && keyMap.Valid()
      && (forall id :: id in nodes ==> id < nextId)
      && tearingDown <= nodes.Keys
      && (forall id :: id in destroyed ==> id < nextId)
      && destroyed * nodes.Keys <= tearingDown
    }

    /** The state the probe loops read. */
    function Table(): KeyTable
      reads this
    {
      KeyTable(keyMap, nodes, typeKey, stringType)
    }

    /** The statics other than the heap are as they were. */
    twostate predicate GlobalsUnchanged()
      reads this
    {
      && keyMap == old(keyMap)
      && typeKey == old(typeKey)
      && hashFunctionKey == old(hashFunctionKey)
      && compareEqFunctionKey == old(compareEqFunctionKey)
      && destructFunctionKey == old(destructFunctionKey)
      && stringType == old(stringType)
      && tearingDown == old(tearingDown)
    }

    /** The well-known keys, the string type and the teardown set are as they were. */
    twostate predicate KeysUnchanged()
      reads this
    {
      && typeKey == old(typeKey)
      && hashFunctionKey == old(hashFunctionKey)
      && compareEqFunctionKey == old(compareEqFunctionKey)
      && destructFunctionKey == old(destructFunctionKey)
      && stringType == old(stringType)
      && tearingDown == old(tearingDown)
    }

    /** The statics as the program starts: zero keys, an unallocated key map, no string type, no nodes. */
    constructor ()
      ensures Valid()
      ensures nodes == map[] && keyMap == EMPTY && stringType.None?
      ensures typeKey == 0 && hashFunctionKey == 0 && compareEqFunctionKey == 0 && destructFunctionKey == 0
      ensures tearingDown == {} && destructorCalls == [] && destroyed == {}
    {
      nodes := map[];
      nextId := 1;
      keyMap := EMPTY;
      typeKey := 0;
      hashFunctionKey := 0;
      compareEqFunctionKey := 0;
      destructFunctionKey := 0;
      stringType := None;
      tearingDown := {};
      destructorCalls := [];
      destroyed := {};
    }

    /** obj_create, with an allocation that succeeds. */
    method Create(size: nat, align: nat) returns (id: NodeId)
      requires Valid()
      modifies this
      ensures Valid() && GlobalsUnchanged() && destructorCalls == old(destructorCalls) && destroyed == old(destroyed)
      ensures id == old(nextId) && nextId == old(nextId) + 1
      ensures id !in old(nodes) && nodes == old(nodes)[id := NewNode(size, align)]
    {
      id := nextId;
      nextId := nextId + 1;
      nodes := nodes[id := NewNode(size, align)];
    }

    /** obj_inc_ref */
    method IncRef(p: Ptr)
      requires Valid()
      modifies this
      ensures Valid() && GlobalsUnchanged() && destructorCalls == old(destructorCalls) && nextId == old(nextId)
      ensures nodes == Retained(old(nodes), p) && destroyed == old(destroyed)
    {
      if p.None? {
        return;
      }
      if p.value !in nodes {
        return;  // a dangling pointer: undefined behaviour, not modelled
      }
      nodes := nodes[p.value := nodes[p.value].(refCount := WrapInc(nodes[p.value].refCount))];
    }

    /**
     * obj_dec_ref: the count goes down by one, wrapping below 0; the node is
     * freed when it reaches 0.  A node already being torn down is not freed again.
     */
    method DecRef(p: Ptr)
      requires Valid()
      modifies this
      decreases nodes.Keys - tearingDown, 6
      ensures Valid() && GlobalsUnchanged() && nextId == old(nextId)
      ensures CountsOnly(old(nodes), nodes) && old(destructorCalls) <= destructorCalls
      ensures !Frees(old(nodes), old(tearingDown), p) ==>
                nodes == Released(old(nodes), p) && destructorCalls == old(destructorCalls)
      ensures Frees(old(nodes), old(tearingDown), p) ==> p.value !in nodes
      ensures Frees(old(nodes), old(tearingDown), p) ==>
                var d := old(QueryMethod(nodes, typeKey, p.value, destructFunctionKey));
                d.Some? ==> |destructorCalls| > |old(destructorCalls)|
                            && destructorCalls[|old(destructorCalls)|] == (p.value, d.value)
    {
      if p.None? {
        return;
      }
      var id := p.value;
      if id !in nodes {
        return;  // a dangling pointer: undefined behaviour, not modelled
      }
      ghost var before := nodes;
      nodes := nodes[id := nodes[id].(refCount := WrapDec(nodes[id].refCount))];
      if nodes[id].refCount > 0 {
        return;
      }
      if id in tearingDown {
        return;  // its count wrapped all the way round during its own teardown
      }
      QueryMethodIgnoresCounts(before, nodes, typeKey, id, destructFunctionKey);
      Free(id);
    }

    /**
     * obj_dec_ref(p) as one step of a destructor loop.  When the releases made
     * so far (`counts`, on top of the heap `base`) and this one free nothing,
     * the heap afterwards is `base` released by `counts` plus this pointer.
     */
    method ReleaseCounted(p: Ptr, ghost base: Heap, ghost counts: multiset<NodeId>, ghost next: multiset<NodeId>,
                          ghost survive: bool)
      requires Valid()
      requires survive ==> next == counts + PtrCount(p) && Survives(base, next)
      requires survive ==> Survives(base, counts) && nodes == ReleasedBy(base, counts)
      modifies this
      decreases nodes.Keys - tearingDown, 7
      ensures Valid() && GlobalsUnchanged() && nextId == old(nextId)
      ensures CountsOnly(old(nodes), nodes) && old(destructorCalls) <= destructorCalls
      ensures survive ==> nodes == ReleasedBy(base, next) && destructorCalls == old(destructorCalls)
    {
      if survive {
        ReleaseOneMore(base, counts, p);
      }
      DecRef(p);
    }

    /** obj_free, as obj_dec_ref calls it. */
    method Free(id: NodeId)
      requires Valid() && id in nodes && id !in tearingDown
      modifies this
      decreases nodes.Keys - tearingDown, 5
      ensures Valid() && GlobalsUnchanged() && nextId == old(nextId)
      ensures old(destructorCalls) <= destructorCalls
      ensures old(nodes[id].refCount) > 0 ==> nodes == old(nodes) && destructorCalls == old(destructorCalls)
      ensures old(nodes[id].refCount) == 0 ==> id !in nodes && CountsOnly(old(nodes), nodes)
      ensures old(nodes[id].refCount) == 0 ==>
                var d := old(QueryMethod(nodes, typeKey, id, destructFunctionKey));
                d.Some? ==> |destructorCalls| > |old(destructorCalls)|
                            && destructorCalls[|old(destructorCalls)|] == (id, d.value)
    {
      if nodes[id].refCount > 0 {
        return;
      }
      ghost var bound := nodes.Keys - tearingDown;
      tearingDown := tearingDown + {id};
      assert nodes.Keys - tearingDown < old(nodes.Keys - tearingDown);
      Reset(id, bound);
      if nodes[id].attrs.buckets.Some? {
        ClearAttr(id, bound);
      }
      Deallocate(id);
    }

    /** obj_mem_deallocate at the end of obj_free: the node leaves the heap and its teardown is over. */
    method Deallocate(id: NodeId)
      requires Valid() && id in tearingDown
      modifies this
      ensures Valid() && nextId == old(nextId) && destructorCalls == old(destructorCalls)
      ensures nodes == old(nodes) - {id} && tearingDown == old(tearingDown) - {id}
      ensures keyMap == old(keyMap) && typeKey == old(typeKey) && hashFunctionKey == old(hashFunctionKey)
      ensures compareEqFunctionKey == old(compareEqFunctionKey) && destructFunctionKey == old(destructFunctionKey)
      ensures stringType == old(stringType)
    {
      nodes := nodes - {id};
      tearingDown := tearingDown - {id};
    }

    /**
     * obj_reset on a node being torn down: runs the destructor that method
     * resolution finds under OBJ_DESTRUCT_FUNCTION_KEY; without one, frees an
     * owned payload; either way the data pointer ends up NULL.
     */
    method Reset(id: NodeId, ghost bound: set<NodeId>)
      requires Valid() && id in tearingDown && nodes.Keys - tearingDown < bound
      requires id !in destroyed
      modifies this
      decreases bound, 4
      ensures Valid() && GlobalsUnchanged() && nextId == old(nextId)
      ensures id in nodes && CountsOnlyExcept(old(nodes), nodes, id)
      ensures nodes[id].attrs == old(nodes[id].attrs) && nodes[id].data == NoData
      ensures old(destructorCalls) <= destructorCalls
      ensures var d := old(QueryMethod(nodes, typeKey, id, destructFunctionKey));
              && (d.Some? ==> |destructorCalls| > |old(destructorCalls)|
                              && destructorCalls[|old(destructorCalls)|] == (id, d.value)
                              && nodes[id].dataSize == old(nodes[id].dataSize))
              && (d.None? ==> nodes == old(nodes)[id := old(nodes[id]).(data := NoData, dataSize := 0)]
                              && destructorCalls == old(destructorCalls))
    {
      var destructor := QueryMethod(nodes, typeKey, id, destructFunctionKey);
      if destructor.Some? {
        destructorCalls := destructorCalls + [(id, destructor.value)];
        destroyed := destroyed + {id};
        CallDestructor(id, destructor.value, bound);
        SetPayload(id, NoData, nodes[id].dataSize);
      } else {
        // free(obj->data) when data_size is not 0; data_size is 0 afterwards either way
        SetPayload(id, NoData, 0);
      }
    }

    /** Replaces a live node's payload and payload size. */
    method SetPayload(id: NodeId, data: Payload, size: Word)
      requires Valid() && id in nodes
      modifies this
      ensures Valid() && GlobalsUnchanged() && nextId == old(nextId) && destructorCalls == old(destructorCalls)
      ensures destroyed == old(destroyed)
      ensures nodes == old(nodes)[id := old(nodes[id]).(data := data, dataSize := size)]
    {
      nodes := nodes[id := nodes[id].(data := data, dataSize := size)];
    }

    /**
     * `destruct_func->func(destruct_func, obj)`: destruct_map and destruct_array
     * run; calling any other payload as a destructor closure is undefined
     * behaviour and is not modelled.
     */
    method CallDestructor(id: NodeId, destructor: Payload, ghost bound: set<NodeId>)
      requires Valid() && id in tearingDown && nodes.Keys - tearingDown < bound
      modifies this
      decreases bound, 3
      ensures Valid() && GlobalsUnchanged() && nextId == old(nextId)
      ensures id in nodes && CountsOnly(old(nodes), nodes) && old(destructorCalls) <= destructorCalls
      ensures destructor != Closure(Function.DestructMap) && destructor != Closure(Function.DestructArray) ==>
                nodes == old(nodes) && destructorCalls == old(destructorCalls)
      ensures destructor == Closure(Function.DestructMap) && old(nodes[id].data).MapData? ==>
                var released := ValueCounts(old(nodes[id].data).entries, old(nodes[id].data).entries.Keys);
                Survives(old(nodes), released) ==>
                  nodes == ReleasedBy(old(nodes), released) && destructorCalls == old(destructorCalls)
      ensures destructor == Closure(Function.DestructArray) && old(nodes[id].data).VectorData? ==>
                var released := PtrCounts(old(nodes[id].data).items, |old(nodes[id].data).items|);
                Survives(old(nodes), released) ==>
                  nodes == ReleasedBy(old(nodes), released) && destructorCalls == old(destructorCalls)
    {
      if destructor == Closure(Function.DestructMap) {
        DestructMap(id, bound);
      } else if destructor == Closure(Function.DestructArray) {
        DestructArray(id, bound);
      }
    }

    /**
     * destruct_map on a node being torn down: releases the value of every
     * entry of its Map_Data, in an unspecified order.  Destroying the
     * Map_Data itself is left to the NULL that obj_reset stores afterwards.
     */
    method DestructMap(id: NodeId, ghost bound: set<NodeId>)
      requires Valid() && id in tearingDown && nodes.Keys - tearingDown < bound
      modifies this
      decreases bound, 2
      ensures Valid() && GlobalsUnchanged() && nextId == old(nextId)
      ensures id in nodes && CountsOnly(old(nodes), nodes) && old(destructorCalls) <= destructorCalls
      ensures !old(nodes[id].data).MapData? ==> nodes == old(nodes) && destructorCalls == old(destructorCalls)
      ensures old(nodes[id].data).MapData? ==>
                var released := ValueCounts(old(nodes[id].data).entries, old(nodes[id].data).entries.Keys);
                Survives(old(nodes), released) ==>
                  nodes == ReleasedBy(old(nodes), released) && destructorCalls == old(destructorCalls)
    {
      if nodes[id].data.MapData? {
          var entries := nodes[id].data.entries;
          ghost var all := ValueCounts(entries, entries.Keys);
          ghost var survive := Survives(nodes, all);
          ReleasedByNothing(nodes);
          var pending := entries.Keys;
          while pending != {}
            invariant Valid() && GlobalsUnchanged() && nextId == old(nextId)
            invariant id in nodes && CountsOnly(old(nodes), nodes) && old(destructorCalls) <= destructorCalls
            invariant nodes.Keys - tearingDown < bound
            invariant pending <= entries.Keys
            invariant survive ==>
                        && Survives(old(nodes), ValueCounts(entries, entries.Keys - pending))
                        && nodes == ReleasedBy(old(nodes), ValueCounts(entries, entries.Keys - pending))
                        && destructorCalls == old(destructorCalls)
            decreases pending
          {
            var k :| k in pending;
            ghost var done := entries.Keys - pending;
            ValueCountsRemove(entries, done + {k}, k);
            assert done + {k} - {k} == done;
            ValueCountsMono(entries, done + {k}, entries.Keys);
            if survive {
              SurvivesSub(old(nodes), ValueCounts(entries, done + {k}), all);
            }
            ReleaseCounted(entries[k], old(nodes), ValueCounts(entries, done), ValueCounts(entries, done + {k}), survive);
            pending := pending - {k};
            assert entries.Keys - pending == done + {k};
          }
          assert entries.Keys - pending == entries.Keys;
      }
      // a payload of another kind read as a Map_Data is undefined behaviour, not modelled
    }

    /** destruct_array on a node being torn down: releases every element, first to last. */
    method DestructArray(id: NodeId, ghost bound: set<NodeId>)
      requires Valid() && id in tearingDown && nodes.Keys - tearingDown < bound
      modifies this
      decreases bound, 2
      ensures Valid() && GlobalsUnchanged() && nextId == old(nextId)
      ensures id in nodes && CountsOnly(old(nodes), nodes) && old(destructorCalls) <= destructorCalls
      ensures !old(nodes[id].data).VectorData? ==> nodes == old(nodes) && destructorCalls == old(destructorCalls)
      ensures old(nodes[id].data).VectorData? ==>
                var released := PtrCounts(old(nodes[id].data).items, |old(nodes[id].data).items|);
                Survives(old(nodes), released) ==>
                  nodes == ReleasedBy(old(nodes), released) && destructorCalls == old(destructorCalls)
    {
      if nodes[id].data.VectorData? {
        ReleaseEach(nodes[id].data.items, bound);
      }
      // a payload of another kind read as a Vector_Data is undefined behaviour, not modelled
    }

    /** The range-for loop of destruct_array: obj_dec_ref on every element, first to last. */
    method ReleaseEach(items: seq<Ptr>, ghost bound: set<NodeId>)
      requires Valid() && nodes.Keys - tearingDown < bound
      modifies this
      decreases bound, 1
      ensures Valid() && GlobalsUnchanged() && nextId == old(nextId)
      ensures CountsOnly(old(nodes), nodes) && old(destructorCalls) <= destructorCalls
      ensures Survives(old(nodes), PtrCounts(items, |items|)) ==>
                nodes == ReleasedBy(old(nodes), PtrCounts(items, |items|)) && destructorCalls == old(destructorCalls)
    {
      ghost var survive := Survives(nodes, PtrCounts(items, |items|));
      ghost var done: multiset<NodeId> := multiset{};
      ReleasedByNothing(nodes);
      var i := 0;
      while i < |items|
        invariant 0 <= i <= |items| && done == PtrCounts(items, i)
        invariant Valid() && GlobalsUnchanged() && nextId == old(nextId)
        invariant CountsOnly(old(nodes), nodes) && old(destructorCalls) <= destructorCalls
        invariant nodes.Keys - tearingDown < bound
        invariant survive ==>
                    && Survives(old(nodes), done)
                    && nodes == ReleasedBy(old(nodes), done)
                    && destructorCalls == old(destructorCalls)
      {
        PtrCountsStep(old(nodes), items, i, survive);
        ReleaseCounted(items[i], old(nodes), done, PtrCounts(items, i + 1), survive);
        done := PtrCounts(items, i + 1);
        i := i + 1;
      }
    }

    /**
     * obj_clear_attr on a node being torn down.  The outer loop stops at
     * `bucket_count_log2` (4), not at the bucket count (16): only the values in
     * buckets 0 to 3 are released.  The map is then reset to empty.
     */
    method ClearAttr(id: NodeId, ghost bound: set<NodeId>)
      requires Valid() && id in tearingDown && nodes.Keys - tearingDown < bound
      modifies this
      decreases bound, 4
      ensures Valid() && GlobalsUnchanged() && nextId == old(nextId)
      ensures id in nodes && CountsOnlyExcept(old(nodes), nodes, id) && old(destructorCalls) <= destructorCalls
      ensures nodes[id] == old(nodes[id]).(attrs := EMPTY, refCount := nodes[id].refCount)
      ensures var released := ClearedCounts(old(nodes[id].attrs));
              Survives(old(nodes), released) ==>
                && nodes == ReleasedBy(old(nodes), released)[id := ReleasedBy(old(nodes), released)[id].(attrs := EMPTY)]
                && destructorCalls == old(destructorCalls)
    {
      if nodes[id].attrs.buckets.Some? {
        ReleaseBuckets(nodes[id].attrs.buckets.value, nodes[id].attrs.bucketCountLog2, bound);
      }
      nodes := nodes[id := nodes[id].(attrs := EMPTY)];
    }

    /** The outer loop of obj_clear_attr: the chains of buckets 0 to n - 1, in order. */
    method ReleaseBuckets(chains: seq<Chain>, n: nat, ghost bound: set<NodeId>)
      requires Valid() && nodes.Keys - tearingDown < bound && n <= |chains|
      modifies this
      decreases bound, 2
      ensures Valid() && GlobalsUnchanged() && nextId == old(nextId)
      ensures CountsOnly(old(nodes), nodes) && old(destructorCalls) <= destructorCalls
      ensures Survives(old(nodes), BucketCounts(chains, n)) ==>
                nodes == ReleasedBy(old(nodes), BucketCounts(chains, n)) && destructorCalls == old(destructorCalls)
    {
      ghost var survive := Survives(nodes, BucketCounts(chains, n));
      ghost var done: multiset<NodeId> := multiset{};
      ReleasedByNothing(nodes);
      var i := 0;
      while i < n
        invariant 0 <= i <= n && done == BucketCounts(chains, i)
        invariant Valid() && GlobalsUnchanged() && nextId == old(nextId)
        invariant CountsOnly(old(nodes), nodes) && old(destructorCalls) <= destructorCalls
        invariant nodes.Keys - tearingDown < bound
        invariant survive ==>
                    && Survives(old(nodes), done)
                    && nodes == ReleasedBy(old(nodes), done)
                    && destructorCalls == old(destructorCalls)
      {
        BucketCountsStep(old(nodes), chains, i, n, survive);
        ReleaseChain(chains[i], old(nodes), done, BucketCounts(chains, i + 1), survive, bound);
        done := BucketCounts(chains, i + 1);
        i := i + 1;
      }
    }

    /** The while loop over one chain in obj_clear_attr: obj_dec_ref on every item's value, head first. */
    method ReleaseChain(chain: Chain, ghost base: Heap, ghost counts: multiset<NodeId>, ghost last: multiset<NodeId>,
                        ghost survive: bool, ghost bound: set<NodeId>)
      requires Valid() && nodes.Keys - tearingDown < bound
      requires survive ==> last == counts + ChainCounts(chain, |chain|) && Survives(base, last)
      requires survive ==> Survives(base, counts) && nodes == ReleasedBy(base, counts)
      modifies this
      decreases bound, 1
      ensures Valid() && GlobalsUnchanged() && nextId == old(nextId)
      ensures CountsOnly(old(nodes), nodes) && old(destructorCalls) <= destructorCalls
      ensures survive ==> nodes == ReleasedBy(base, last) && destructorCalls == old(destructorCalls)
    {
      ghost var done := counts;
      var j := 0;
      while j < |chain|
        invariant 0 <= j <= |chain| && done == counts + ChainCounts(chain, j)
        invariant Valid() && GlobalsUnchanged() && nextId == old(nextId)
        invariant CountsOnly(old(nodes), nodes) && old(destructorCalls) <= destructorCalls
        invariant nodes.Keys - tearingDown < bound
        invariant survive ==>
                    && Survives(base, done)
                    && nodes == ReleasedBy(base, done)
                    && destructorCalls == old(destructorCalls)
      {
        ChainCountsStep(base, chain, counts, j, survive);
        ghost var next := counts + ChainCounts(chain, j + 1);
        ReleaseCounted(Some(chain[j].value), base, done, next, survive);
        done := next;
        j := j + 1;
      }
    }

    /**
     * obj_add_attr_internal with an item allocation that succeeds: the item
     * is prepended to the target map, whose buckets are allocated first if
     * need be, and the value is counted once more.  A dangling target or value
     * is undefined behaviour and changes nothing here.
     */
    method AddAttrInternal(target: MapRef, key: Key, value: NodeId)
      requires Valid()
      modifies this
      ensures Valid() && KeysUnchanged() && nextId == old(nextId)
      ensures destructorCalls == old(destructorCalls) && destroyed == old(destroyed)
      ensures !Targets(old(nodes), target, value) ==> nodes == old(nodes) && keyMap == old(keyMap)
      ensures Targets(old(nodes), target, value) && target.GlobalKeyMap? ==>
                keyMap == Add(old(keyMap), key, value) && nodes == Retained(old(nodes), Some(value))
      ensures Targets(old(nodes), target, value) && target.AttrsOf? ==>
                keyMap == old(keyMap) && nodes == Retained(WithAttr(old(nodes), target.owner, key, value), Some(value))
    {
      if !Targets(nodes, target, value) {
        return;
      }
      PrependItem(target, key, value);
      IncRef(Some(value));  // value->ref_count++, which is what obj_inc_ref does to a live node
    }

    /** The item of obj_add_attr_internal prepended to the target map. */
    method PrependItem(target: MapRef, key: Key, value: NodeId)
      requires Valid() && Targets(nodes, target, value)
      modifies this
      ensures Valid() && KeysUnchanged() && nextId == old(nextId) && value in nodes
      ensures destructorCalls == old(destructorCalls) && destroyed == old(destroyed)
      ensures target.GlobalKeyMap? ==> keyMap == Add(old(keyMap), key, value) && nodes == old(nodes)
      ensures target.AttrsOf? ==> keyMap == old(keyMap) && nodes == WithAttr(old(nodes), target.owner, key, value)
    {
      if target.GlobalKeyMap? {
        keyMap := Add(keyMap, key, value);
      } else {
        nodes := WithAttr(nodes, target.owner, key, value);
      }
    }

    /** obj_add_attr: NULL for the object or the value changes nothing. */
    method AddAttr(obj: Ptr, key: Key, value: Ptr)
      requires Valid()
      modifies this
      ensures Valid() && GlobalsUnchanged() && nextId == old(nextId)
      ensures destructorCalls == old(destructorCalls) && destroyed == old(destroyed)
      ensures obj.Some? && obj.value in old(nodes) && value.Some? && value.value in old(nodes) ==>
                nodes == Retained(WithAttr(old(nodes), obj.value, key, value.value), value)
      ensures !(obj.Some? && obj.value in old(nodes) && value.Some? && value.value in old(nodes)) ==> nodes == old(nodes)
    {
      if obj.None? || value.None? {
        return;
      }
      AddAttrInternal(AttrsOf(obj.value), key, value.value);
    }

    /** obj_set_type: the type becomes the object's attribute under OBJ_TYPE_KEY. */
    method SetType(obj: Ptr, t: Ptr)
      requires Valid()
      modifies this
      ensures Valid() && GlobalsUnchanged() && nextId == old(nextId)
      ensures destructorCalls == old(destructorCalls) && destroyed == old(destroyed)
      ensures obj.Some? && obj.value in old(nodes) && t.Some? && t.value in old(nodes) ==>
                && nodes == Retained(WithAttr(old(nodes), obj.value, typeKey, t.value), t)
                && TypeOf(nodes, typeKey, obj.value) == t
      ensures !(obj.Some? && obj.value in old(nodes) && t.Some? && t.value in old(nodes)) ==> nodes == old(nodes)
    {
      if obj.None? || t.None? {
        return;
      }
      AddAttrInternal(AttrsOf(obj.value), typeKey, t.value);
      if obj.value in old(nodes) && t.value in old(nodes) {
        GetAfterAdd(old(nodes)[obj.value].attrs, typeKey, t.value, typeKey);
      }
    }

    /**
     * obj_get_attr: NULL for a NULL object, otherwise the lookup in its
     * attributes; whatever it returns is stored there under the key.
     */
    function GetAttr(obj: Ptr, key: Key): (r: Ptr)
      requires Valid()
      reads this
      ensures obj.None? ==> r.None?
      ensures r.Some? ==> obj.Some? && obj.value in nodes && Item(key, r.value) in Contents(nodes[obj.value].attrs)
    {
      if obj.None? || obj.value !in nodes then None
      else
        var r := Get(nodes[obj.value].attrs, key);
        assert r.Some? ==> Item(key, r.value) in Contents(nodes[obj.value].attrs) by {
          if r.Some? {
            GetIsInContents(nodes[obj.value].attrs, key);
          }
        }
        r
    }

    /**
     * obj_create_char32_string: a node whose inline payload holds a copy of
     * the string and its terminator.  No type is set.
     */
    method CreateChar32String(str: seq<Char32>) returns (id: NodeId)
      requires Valid() && Terminated(str, 0)
      modifies this
      ensures Valid() && GlobalsUnchanged() && destructorCalls == old(destructorCalls) && destroyed == old(destroyed)
      ensures id == old(nextId) && nextId == old(nextId) + 1 && id !in old(nodes)
      ensures nodes == old(nodes)[id := NewNode(4 * (Strlen(str, 0) + 1), 4).(data := Str(Copy(str, 0)))]
    {
      id := Create(4 * (Strlen(str, 0) + 1), 4);
      SetPayload(id, Str(Copy(str, 0)), 0);
    }

    /**
     * One iteration of the probe loop, at `key`: None when the entry there is
     * a different string and the loop moves on, otherwise how the loop ends.
     */
    static method ProbeAt(t: KeyTable, s: Seeker, key: Key, ghost start: Key, ghost i: nat) returns (r: Option<Probe>)
      requires t.Valid() && i < WORD_MODULUS && key == (start + i) % WORD_MODULUS
      ensures r.Some? ==> r.value == ProbeFrom(t, s, start, i)
      ensures r.None? ==> ProbeFrom(t, s, start, i) == ProbeFrom(t, s, start, i + 1)
    {
      var current := Get(t.keyMap, key);
      if current.None? {
        return Some(Vacant(key));
      }
      ProbeStepOn(t, s, start, i, current.value);
      var verdict := Inspect(t, s, current.value);
      if verdict == Equal {
        return Some(Found(key));
      } else if verdict == TypeMismatch {
        return Some(Spins);
      } else if verdict == Broken {
        return Some(Undefined);
      }
      return None;
    }

    /**
     * The `while` loop shared by obj_attr_hash_string and
     * obj_attr_hash_internal: from the start key on, `key++` past every
     * unequal entry.  It reads the state and changes nothing; a type mismatch,
     * which the source answers with `continue` and so re-examines the same key
     * for ever, is reported as Spins.
     */
    method ProbeLoop(s: Seeker, start: Key) returns (r: Probe)
      requires Valid()
      ensures r == ProbeFrom(Table(), s, start, 0)
    {
      var t := Table();
      var i := 0;
      while i < WORD_MODULUS
        invariant 0 <= i <= WORD_MODULUS
        invariant ProbeFrom(t, s, start, i) == ProbeFrom(t, s, start, 0)
        decreases WORD_MODULUS - i
      {
        var key := (start + i) % WORD_MODULUS;  // `key++` i times from the start key
        var step := ProbeAt(t, s, key, start, i);
        if step.Some? {
          return step.value;
        }
        i := i + 1;
      }
      return Spins;
    }

    /**
     * The tail of obj_attr_hash_string for a string the probe did not find:
     * a node holding a copy of the string, typed as a string, is added to
     * the key map under `key`.
     */
    method AddInternedString(str: seq<Char32>, key: Key, ghost start: Key) returns (id: NodeId)
      requires Valid() && Terminated(str, 0) && ProbeFrom(Table(), StringSeeker(str), start, 0) == Vacant(key)
      modifies this
      ensures Valid() && KeysUnchanged() && destructorCalls == old(destructorCalls) && destroyed == old(destroyed)
      ensures id == old(nextId) && nextId == old(nextId) + 1 && id !in old(nodes)
      ensures keyMap == Add(old(keyMap), key, id)
      ensures old(stringType.None? || stringType.value in nodes) ==>
                && nodes == Retained(old(nodes), stringType)[id := InternedNode(str, typeKey, stringType)]
                && ProbeFrom(Table(), StringSeeker(str), start, 0) == Found(key)
    {
      ghost var t := Table();
      id := CreateChar32String(str);
      SetType(Some(id), stringType);
      AddAttrInternal(GlobalKeyMap, key, id);
      if old(stringType.None? || stringType.value in nodes) {
        InternedHeap(old(nodes), id, str, typeKey, stringType);
        ReprobeFindsInternedString(t, Table(), str, start, key, id);
      }
    }

    /**
     * obj_attr_hash_string: the key under which the key map holds a
     * string-typed node equal to the string; when there is none, the string
     * is interned at the first vacant key of the probe.
     */
    method HashStringIntern(str: seq<Char32>) returns (r: Outcome<Key>)
      requires Valid() && keyMap.buckets.Some? && Terminated(str, 0)
      modifies this
      ensures Valid() && KeysUnchanged() && destructorCalls == old(destructorCalls) && destroyed == old(destroyed)
      ensures r == InternOutcome(old(Table()), StringSeeker(str), Some(HashString(str)))
      ensures var p := old(ProbeFrom(Table(), StringSeeker(str), HashString(str), 0));
              && (!p.Vacant? ==> nodes == old(nodes) && keyMap == old(keyMap) && nextId == old(nextId))
              && (p.Vacant? ==> keyMap == Add(old(keyMap), p.key, old(nextId)) && nextId == old(nextId) + 1)
              && (p.Vacant? && old(stringType.None? || stringType.value in nodes) ==>
                    && nodes == Retained(old(nodes), stringType)[old(nextId) := InternedNode(str, typeKey, stringType)]
                    && ProbeFrom(Table(), StringSeeker(str), HashString(str), 0) == Found(p.key))
    {
      var start := WithHashFlag(HashString(str));
      var p := ProbeLoop(StringSeeker(str), start);
      if p.Found? {
        return Returned(p.key);
      } else if p.Spins? {
        return NeverReturns;
      } else if p.Undefined? {
        return UndefinedBehaviour;
      }
      var id := AddInternedString(str, p.key, start);
      return Returned(p.key);
    }

    /**
     * obj_attr_hash_internal: hashes the node's data with the hash closure,
     * then probes for an entry of the same type that is the node itself or
     * that the equality closure (if any) judges equal; when there is none,
     * the node itself is added at the first vacant key.
     */
    method HashInternal(hashFunc: Payload, compareEq: Option<Payload>, obj: NodeId) returns (r: Outcome<Key>)
      requires Valid() && keyMap.buckets.Some? && obj in nodes
      modifies this
      ensures Valid() && KeysUnchanged() && nextId == old(nextId)
      ensures destructorCalls == old(destructorCalls) && destroyed == old(destroyed)
      ensures r == InternOutcome(old(Table()), NodeSeeker(obj, compareEq), old(ApplyHash(hashFunc, nodes[obj].data)))
      ensures var start := old(ApplyHash(hashFunc, nodes[obj].data));
              var p := old(ProbeOf(Table(), NodeSeeker(obj, compareEq), start));
              && (!p.Vacant? ==> nodes == old(nodes) && keyMap == old(keyMap))
              && (p.Vacant? ==>
                    && keyMap == Add(old(keyMap), p.key, obj) && nodes == Retained(old(nodes), Some(obj))
                    && ProbeOf(Table(), NodeSeeker(obj, compareEq), start) == Found(p.key))
    {
      var start := ApplyHash(hashFunc, nodes[obj].data);
      if start.None? {
        return UndefinedBehaviour;  // a closure that is not hash_char32_string, or data that is not a string
      }
      var p := ProbeLoop(NodeSeeker(obj, compareEq), start.value);
      if p.Found? {
        return Returned(p.key);
      } else if p.Spins? {
        return NeverReturns;
      } else if p.Undefined? {
        return UndefinedBehaviour;
      }
      ghost var t := Table();
      AddAttrInternal(GlobalKeyMap, p.key, obj);
      ReprobeFindsInternedNode(t, Table(), obj, compareEq, start.value, p.key);
      return Returned(p.key);
    }

    /**
     * obj_attr_key_hash: 0 when method resolution finds no hash closure for
     * the node; otherwise the key obj_attr_hash_internal interns it under,
     * with the hash flag set.
     */
    method KeyHash(obj: NodeId) returns (r: Outcome<Key>)
      requires Valid() && obj in nodes
      requires QueryMethod(nodes, typeKey, obj, hashFunctionKey).Some? ==> keyMap.buckets.Some?
      modifies this
      ensures Valid() && KeysUnchanged() && nextId == old(nextId)
      ensures destructorCalls == old(destructorCalls) && destroyed == old(destroyed)
      ensures var hashFunc := old(QueryMethod(nodes, typeKey, obj, hashFunctionKey));
              var compareEq := old(QueryMethod(nodes, typeKey, obj, compareEqFunctionKey));
              && (hashFunc.None? ==> r == Returned(0) && nodes == old(nodes) && keyMap == old(keyMap))
              && (hashFunc.Some? ==>
                    r == Flagged(InternOutcome(old(Table()), NodeSeeker(obj, compareEq), old(ApplyHash(hashFunc.value, nodes[obj].data)))))
      ensures r.Returned? ==> (r.value == 0 <==> old(QueryMethod(nodes, typeKey, obj, hashFunctionKey)).None?)
      ensures r.Returned? ==> r.value == 0 || IsHashKey(r.value)
    {
      var hashFunc := QueryMethod(nodes, typeKey, obj, hashFunctionKey);
      if hashFunc.None? {
        return Returned(0);
      }
      var compareEq := QueryMethod(nodes, typeKey, obj, compareEqFunctionKey);
      var k := HashInternal(hashFunc.value, compareEq, obj);
      r := Flagged(k);
    }

    /** init_hash_map on obj_key_map: a fresh bucket array with every chain empty; the old one is dropped, not freed. */
    method AllocateKeyMap()
      requires Valid()
      modifies this
      ensures Valid() && KeysUnchanged() && nodes == old(nodes) && nextId == old(nextId)
      ensures destructorCalls == old(destructorCalls) && destroyed == old(destroyed)
      ensures keyMap.buckets.Some? && Contents(keyMap) == multiset{}
      ensures forall k :: Get(keyMap, k).None?
    {
      keyMap := Allocated();
    }

    /**
     * The two nodes obj_init_key_map makes for one function key: a name node
     * holding the key in its data pointer, and a closure node holding the function.
     */
    method MakeFunctionNodes(key: Key, f: Function) returns (name: NodeId, func: NodeId)
      requires Valid()
      modifies this
      ensures Valid() && GlobalsUnchanged() && destructorCalls == old(destructorCalls) && destroyed == old(destroyed)
      ensures name == old(nextId) && func == name + 1 && nextId == func + 1
      ensures nodes == old(nodes)[name := Node(EMPTY, None, KeyWord(key), 0, 0)][func := Node(EMPTY, None, Closure(f), 0, 0)]
    {
      name := Create(0, 0);
      SetPayload(name, KeyWord(key), 0);
      func := Create(8, 8);
      SetPayload(func, Closure(f), 0);
    }

    /** The node for OBJ_TYPE_KEY, holding the key in its data pointer and registered in the key map under it. */
    method MakeTypeNode() returns (id: NodeId)
      requires Valid()
      modifies this
      ensures Valid() && KeysUnchanged() && destructorCalls == old(destructorCalls) && destroyed == old(destroyed)
      ensures id == old(nextId) && nextId == id + 1
      ensures keyMap == Add(old(keyMap), typeKey, id)
      ensures nodes == old(nodes)[id := Node(EMPTY, None, KeyWord(typeKey), 0, 1)]
    {
      id := Create(0, 0);
      SetPayload(id, KeyWord(typeKey), 0);
      AddAttrInternal(GlobalKeyMap, typeKey, id);
    }

    /** obj_set_type(id, obj_char32_string_type_obj) on a live node other than the string type itself. */
    method SetStringType(id: NodeId)
      requires Valid() && stringType.Some? && stringType.value in nodes && id in nodes && id != stringType.value
      modifies this
      ensures Valid() && GlobalsUnchanged() && nextId == old(nextId)
      ensures destructorCalls == old(destructorCalls) && destroyed == old(destroyed)
      ensures var st := stringType.value;
              nodes == old(nodes)[id := old(nodes)[id].(attrs := Add(old(nodes)[id].attrs, typeKey, st))]
                                 [st := old(nodes)[st].(refCount := WrapInc(old(nodes)[st].refCount))]
    {
      SetType(Some(id), stringType);
    }

    /** The string type: a fresh node that becomes the type of both name nodes. */
    method MakeStringType(hashName: NodeId, compareEqName: NodeId)
      requires Valid() && hashName in nodes && compareEqName in nodes && hashName != compareEqName
      modifies this
      ensures Valid() && keyMap == old(keyMap) && destructorCalls == old(destructorCalls) && destroyed == old(destroyed)
      ensures typeKey == old(typeKey) && hashFunctionKey == old(hashFunctionKey)
      ensures compareEqFunctionKey == old(compareEqFunctionKey) && destructFunctionKey == old(destructFunctionKey)
      ensures tearingDown == old(tearingDown)
      ensures stringType == Some(old(nextId)) && nextId == old(nextId) + 1
      ensures nodes == old(nodes)
        [hashName := old(nodes)[hashName].(attrs := Add(old(nodes)[hashName].attrs, typeKey, old(nextId)))]
        [compareEqName := old(nodes)[compareEqName].(attrs := Add(old(nodes)[compareEqName].attrs, typeKey, old(nextId)))]
        [old(nextId) := Node(EMPTY, None, NoData, 0, 2)]
    {
      var st := Create(0, 0);
      stringType := Some(st);
      ghost var n0: Heap := nodes;
      ghost var h: Heap := old(nodes);
      SetStringType(hashName);
      ghost var n1: Heap := nodes;
      ghost var fa := h[hashName].(attrs := Add(h[hashName].attrs, typeKey, st));
      assert n1 == n0[hashName := fa][st := Node(EMPTY, None, NoData, 0, 1)];
      SetStringType(compareEqName);
      ghost var fb := h[compareEqName].(attrs := Add(h[compareEqName].attrs, typeKey, st));
      assert nodes == n1[compareEqName := fb][st := Node(EMPTY, None, NoData, 0, 2)];
      UpdatesCompose(h, hashName, compareEqName, st, fa, fb, Node(EMPTY, None, NoData, 0, 0), Node(EMPTY, None, NoData, 0, 1),
                     Node(EMPTY, None, NoData, 0, 2), n0, n1, nodes);
    }

    /** The string type's attributes receive the hash and equality closures under their keys. */
    method AddStringMethods(hashFunc: NodeId, compareEqFunc: NodeId)
      requires Valid() && stringType.Some?
      requires stringType.value in nodes && hashFunc in nodes && compareEqFunc in nodes
      requires stringType.value != hashFunc && stringType.value != compareEqFunc && hashFunc != compareEqFunc
      modifies this
      ensures Valid() && keyMap == old(keyMap) && destructorCalls == old(destructorCalls) && destroyed == old(destroyed)
      ensures typeKey == old(typeKey) && hashFunctionKey == old(hashFunctionKey)
      ensures compareEqFunctionKey == old(compareEqFunctionKey) && destructFunctionKey == old(destructFunctionKey)
      ensures tearingDown == old(tearingDown) && stringType == old(stringType) && nextId == old(nextId)
      ensures var st := stringType.value;
              nodes == old(nodes)
                [st := old(nodes)[st].(attrs := Add(Add(old(nodes)[st].attrs, hashFunctionKey, hashFunc), compareEqFunctionKey, compareEqFunc))]
                [hashFunc := old(nodes)[hashFunc].(refCount := WrapInc(old(nodes)[hashFunc].refCount))]
                [compareEqFunc := old(nodes)[compareEqFunc].(refCount := WrapInc(old(nodes)[compareEqFunc].refCount))]
    {
      var st := stringType.value;
      ghost var n0 := nodes;
      assert Targets(n0, AttrsOf(st), hashFunc);
      AddAttrInternal(AttrsOf(st), hashFunctionKey, hashFunc);
      ghost var n1 := nodes;
      assert n1 == n0[st := n0[st].(attrs := Add(n0[st].attrs, hashFunctionKey, hashFunc))][hashFunc := n0[hashFunc].(refCount := WrapInc(n0[hashFunc].refCount))];
      assert Targets(n1, AttrsOf(st), compareEqFunc);
      AddAttrInternal(AttrsOf(st), compareEqFunctionKey, compareEqFunc);
    }

    /**
     * The first part of obj_init_key_map: a fresh key map, and the name and
     * closure nodes of the hash and equality functions, whose keys come
     * straight from the string hash of their names.
     */
    method InitFunctionKeys() returns (hashName: NodeId, hashFunc: NodeId, compareEqName: NodeId, compareEqFunc: NodeId)
      requires Valid()
      modifies this
      ensures Valid() && tearingDown == old(tearingDown) && destructFunctionKey == old(destructFunctionKey)
      ensures typeKey == old(typeKey) && stringType == old(stringType)
      ensures destructorCalls == old(destructorCalls) && destroyed == old(destroyed)
      ensures hashFunctionKey == HASH_FUNCTION_KEY_VALUE && compareEqFunctionKey == COMPARE_EQ_FUNCTION_KEY_VALUE
      ensures hashName == old(nextId) && hashFunc == hashName + 1 && compareEqName == hashName + 2
      ensures compareEqFunc == hashName + 3 && nextId == hashName + 4
      ensures keyMap.buckets.Some? && forall k :: Get(keyMap, k).None?
      ensures nodes == FunctionNodesHeap(old(nodes), old(nextId))
    {
      AllocateKeyMap();
      hashName, hashFunc := InitHashFunctionKey();
      compareEqName, compareEqFunc := InitCompareEqFunctionKey();
    }

    /** OBJ_KEY_HASH_FUNCTION, the string hash of its name, and its name and closure nodes. */
    method InitHashFunctionKey() returns (name: NodeId, func: NodeId)
      requires Valid()
      modifies this
      ensures Valid() && keyMap == old(keyMap) && typeKey == old(typeKey) && stringType == old(stringType)
      ensures compareEqFunctionKey == old(compareEqFunctionKey) && destructFunctionKey == old(destructFunctionKey)
      ensures tearingDown == old(tearingDown) && destructorCalls == old(destructorCalls) && destroyed == old(destroyed)
      ensures hashFunctionKey == HASH_FUNCTION_KEY_VALUE
      ensures name == old(nextId) && func == name + 1 && nextId == func + 1
      ensures nodes == old(nodes)[name := Node(EMPTY, None, KeyWord(HASH_FUNCTION_KEY_VALUE), 0, 0)][func := Node(EMPTY, None, Closure(HashChar32String), 0, 0)]
    {
      HashFunctionKey();
      hashFunctionKey := HashString(OBJ_KEY_HASH_FUNCTION + [0]);
      name, func := MakeFunctionNodes(hashFunctionKey, HashChar32String);
    }

    /** OBJ_KEY_COMPARE_EQ_FUNCTION, the string hash of its name, and its name and closure nodes. */
    method InitCompareEqFunctionKey() returns (name: NodeId, func: NodeId)
      requires Valid()
      modifies this
      ensures Valid() && keyMap == old(keyMap) && typeKey == old(typeKey) && stringType == old(stringType)
      ensures hashFunctionKey == old(hashFunctionKey) && destructFunctionKey == old(destructFunctionKey)
      ensures tearingDown == old(tearingDown) && destructorCalls == old(destructorCalls) && destroyed == old(destroyed)
      ensures compareEqFunctionKey == COMPARE_EQ_FUNCTION_KEY_VALUE
      ensures name == old(nextId) && func == name + 1 && nextId == func + 1
      ensures nodes == old(nodes)[name := Node(EMPTY, None, KeyWord(COMPARE_EQ_FUNCTION_KEY_VALUE), 0, 0)][func := Node(EMPTY, None, Closure(CompareEqChar32String), 0, 0)]
    {
      CompareEqFunctionKey();
      compareEqFunctionKey := HashString(OBJ_KEY_COMPARE_EQ_FUNCTION + [0]);
      name, func := MakeFunctionNodes(compareEqFunctionKey, CompareEqChar32String);
    }

    /** OBJ_TYPE_KEY: the string hash of the name of the type attribute, with no interning. */
    method InitTypeKey()
      modifies this
      ensures typeKey == TYPE_KEY_VALUE && nodes == old(nodes) && keyMap == old(keyMap) && nextId == old(nextId)
      ensures hashFunctionKey == old(hashFunctionKey) && compareEqFunctionKey == old(compareEqFunctionKey)
      ensures destructFunctionKey == old(destructFunctionKey) && stringType == old(stringType)
      ensures tearingDown == old(tearingDown) && destructorCalls == old(destructorCalls) && destroyed == old(destroyed)
    {
      ObjTypeKey();
      typeKey := HashString(OBJ_TYPE + [0]);
    }

    /**
     * The second part of obj_init_key_map: the node of the type key,
     * registered in the key map, then the string type of both name nodes,
     * holding both closures.
     */
    method InitTypes(n: NodeId)
      requires Valid() && nextId == n + 4 && {n, n + 1, n + 2, n + 3} <= nodes.Keys
      requires hashFunctionKey == HASH_FUNCTION_KEY_VALUE && compareEqFunctionKey == COMPARE_EQ_FUNCTION_KEY_VALUE
      requires typeKey == TYPE_KEY_VALUE
      modifies this
      ensures Valid() && tearingDown == old(tearingDown) && destructFunctionKey == old(destructFunctionKey)
      ensures hashFunctionKey == old(hashFunctionKey) && compareEqFunctionKey == old(compareEqFunctionKey)
      ensures destructorCalls == old(destructorCalls) && destroyed == old(destroyed)
      ensures typeKey == old(typeKey) && stringType == Some(n + 5) && nextId == n + 6
      ensures keyMap == Add(old(keyMap), TYPE_KEY_VALUE, n + 4)
      ensures nodes == TypeNodesHeap(old(nodes), n)
    {
      var typeObj := MakeTypeNode();
      InitStringType(n);
    }

    /** The string type of both name nodes, holding both closures. */
    method InitStringType(n: NodeId)
      requires Valid() && nextId == n + 5 && {n, n + 1, n + 2, n + 3} <= nodes.Keys
      requires hashFunctionKey == HASH_FUNCTION_KEY_VALUE && compareEqFunctionKey == COMPARE_EQ_FUNCTION_KEY_VALUE
      requires typeKey == TYPE_KEY_VALUE
      modifies this
      ensures Valid() && tearingDown == old(tearingDown) && destructFunctionKey == old(destructFunctionKey)
      ensures hashFunctionKey == old(hashFunctionKey) && compareEqFunctionKey == old(compareEqFunctionKey)
      ensures destructorCalls == old(destructorCalls) && destroyed == old(destroyed)
      ensures typeKey == old(typeKey) && stringType == Some(n + 5) && nextId == n + 6 && keyMap == old(keyMap)
      ensures nodes == StringTypeHeap(old(nodes), n)
    {
      ghost var h1 := nodes;
      MakeStringType(n, n + 2);
      ghost var h2 := nodes;
      assert h2 == h1[n := h1[n].(attrs := Add(h1[n].attrs, TYPE_KEY_VALUE, n + 5))]
                     [n + 2 := h1[n + 2].(attrs := Add(h1[n + 2].attrs, TYPE_KEY_VALUE, n + 5))]
                     [n + 5 := Node(EMPTY, None, NoData, 0, 2)];
      AddStringMethods(n + 1, n + 3);
    }

    /**
     * The bootstrap part of obj_init_key_map, everything before the
     * destructor key is interned.
     */
    method Bootstrap()
      requires Valid()
      modifies this
      ensures Valid() && tearingDown == old(tearingDown) && destructFunctionKey == old(destructFunctionKey)
      ensures destructorCalls == old(destructorCalls) && destroyed == old(destroyed)
      ensures typeKey == TYPE_KEY_VALUE && hashFunctionKey == HASH_FUNCTION_KEY_VALUE
      ensures compareEqFunctionKey == COMPARE_EQ_FUNCTION_KEY_VALUE
      ensures stringType == Some(old(nextId) + 5) && nextId == old(nextId) + 6
      ensures keyMap.buckets.Some? && forall k :: Get(keyMap, k) == if k == TYPE_KEY_VALUE then Some(old(nextId) + 4) else None
      ensures nodes == BootstrapHeap(old(nodes), old(nextId))
    {
      var hashName, hashFunc, compareEqName, compareEqFunc := InitFunctionKeys();
      InitTypeKey();
      ghost var emptyMap := keyMap;
      InitTypes(hashName);
      SingleEntry(emptyMap, TYPE_KEY_VALUE, hashName + 4);
    }

    /**
     * The last step of obj_init_key_map: the destructor key is the key
     * obj_attr_hash_string gives the destructor name, which is interned as a
     * new string node at n + 6.
     */
    method InitDestructKey(n: NodeId)
      requires Valid() && nextId == n + 6 && keyMap.buckets.Some?
      requires typeKey == TYPE_KEY_VALUE && stringType == Some(n + 5) && n + 5 in nodes
      requires forall k :: Get(keyMap, k) == if k == TYPE_KEY_VALUE then Some(n + 4) else None
      modifies this
      ensures Valid() && tearingDown == old(tearingDown) && destructorCalls == old(destructorCalls) && destroyed == old(destroyed)
      ensures typeKey == old(typeKey) && hashFunctionKey == old(hashFunctionKey)
      ensures compareEqFunctionKey == old(compareEqFunctionKey) && stringType == old(stringType)
      ensures destructFunctionKey == DESTRUCT_FUNCTION_KEY_VALUE && nextId == n + 7
      ensures nodes == Retained(old(nodes), Some(n + 5))[n + 6 := DestructNameNode(n)]
      ensures forall k :: Get(keyMap, k) == if k == TYPE_KEY_VALUE then Some(n + 4)
                                            else if k == DESTRUCT_FUNCTION_KEY_VALUE then Some(n + 6)
                                            else None
    {
      DestructKeyVacant(Table(), n + 4);
      DestructNameInterned(n);
      ghost var before := keyMap;
      var r := HashStringIntern(OBJ_DESTRUCT_FUNCTION + [0]);
      destructFunctionKey := r.value;
      BootstrapKeys(before, keyMap, n);
    }

    /**
     * obj_init_key_map: the bootstrap, then the interning of the destructor
     * key's name.  The well-known keys are the string hashes of their names,
     * and the key map ends up holding two entries.
     */
    method InitKeyMap()
      requires Valid()
      modifies this
      ensures Valid() && tearingDown == old(tearingDown) && destructorCalls == old(destructorCalls) && destroyed == old(destroyed)
      ensures hashFunctionKey == HASH_FUNCTION_KEY_VALUE && compareEqFunctionKey == COMPARE_EQ_FUNCTION_KEY_VALUE
      ensures destructFunctionKey == DESTRUCT_FUNCTION_KEY_VALUE && nextId == old(nextId) + 7
      ensures Initialised(Table(), old(nodes), old(nextId))
    {
      var n := nextId;
      Bootstrap();
      InitDestructKey(n);
    }
  }
}
