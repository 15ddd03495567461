/**
 * Easy_Object, the C++ handle of obj_helper.h/.cpp, over the object store
 * of obj_tree.c: a handle holds one counted reference to a node; map and
 * array nodes carry a Map_Data or Vector_Data payload whose entries each
 * hold a counted reference; the statics of the class (the root, the type
 * maps and the type registry) live in a TypeSystem.
 */
module EasyObject {
  import opened Wrappers
  import opened Words
  import opened Char32String
  import opened AttrMap
  import opened ObjNode
  import opened KeyNames
  import opened ObjTree
  import opened Containers
  import opened TypeMaps
  import opened ComObjects
  import opened TypeRegistry
  import opened Interning
  import opened TypeSystemSetup

  /** sizeof and alignof of Map_Data, Vector_Data and Closure_Data with the 64-bit MSVC library. */
  const MAP_DATA_SIZE: nat := 64
  const VECTOR_DATA_SIZE: nat := 24
  const CLOSURE_DATA_SIZE: nat := 8
  const POINTER_ALIGN: nat := 8
  const POINTER_SIZE: nat := 8

  /** The state of the runtime other than the heap is as it was, and nothing was torn down. */
  twostate predicate Steady(rt: Runtime)
    reads rt
  {
    && rt.Valid() && rt.GlobalsUnchanged() && rt.nextId == old(rt.nextId)
    && rt.destructorCalls == old(rt.destructorCalls) && rt.destroyed == old(rt.destroyed)
  }

  /** The state of the runtime other than the heap is as it was, and `k` new nodes were created. */
  twostate predicate Grown(rt: Runtime, k: nat)
    reads rt
  {
    && rt.Valid() && rt.GlobalsUnchanged() && rt.nextId == old(rt.nextId) + k
    && rt.destructorCalls == old(rt.destructorCalls) && rt.destroyed == old(rt.destroyed)
  }

  /** The state of the runtime other than the heap is as it was; releases may have run destructors. */
  twostate predicate AfterRelease(rt: Runtime)
    reads rt
  {
    && rt.Valid() && rt.GlobalsUnchanged() && rt.nextId == old(rt.nextId)
    && old(rt.destructorCalls) <= rt.destructorCalls
  }

  /**
   * The tail of set(key, value) for a key the map holds: `it->second` is
   * released, then overwritten with the new value, which is counted.
   */
  method Replace(rt: Runtime, id: NodeId, entries: map<string, Ptr>, key: string, value: Ptr)
    requires rt.Valid() && MapEntries(rt.nodes, Some(id)) == Some(entries) && key in entries
    modifies rt
    ensures AfterRelease(rt)
    ensures id in rt.nodes ==> MapEntries(rt.nodes, Some(id)) == Some(entries[key := value])
    ensures !Frees(old(rt.nodes), old(rt.tearingDown), entries[key]) ==>
              && rt.nodes == Retained(WithData(Released(old(rt.nodes), entries[key]), id, MapData(entries[key := value])), value)
              && rt.destructorCalls == old(rt.destructorCalls)
  {
    rt.DecRef(entries[key]);
    if id !in rt.nodes {
      return;  // the map went with its value: the store into it is undefined behaviour
    }
    rt.SetPayload(id, MapData(entries[key := value]), rt.nodes[id].dataSize);
    rt.IncRef(value);
  }

  /** The tail of set(index, value) for an index in range: the old element is released, then overwritten and the new one counted. */
  method ReplaceAt(rt: Runtime, id: NodeId, items: seq<Ptr>, index: nat, value: Ptr)
    requires rt.Valid() && VectorItems(rt.nodes, Some(id)) == Some(items) && index < |items|
    modifies rt
    ensures AfterRelease(rt)
    ensures id in rt.nodes ==> VectorItems(rt.nodes, Some(id)) == Some(items[index := value])
    ensures !Frees(old(rt.nodes), old(rt.tearingDown), items[index]) ==>
              && rt.nodes == Retained(WithData(Released(old(rt.nodes), items[index]), id, VectorData(items[index := value])), value)
              && rt.destructorCalls == old(rt.destructorCalls)
  {
    rt.DecRef(items[index]);
    if id !in rt.nodes {
      return;  // the array went with its element: the store into it is undefined behaviour
    }
    rt.SetPayload(id, VectorData(items[index := value]), rt.nodes[id].dataSize);
    rt.IncRef(value);
  }

  /** The pointer is NULL or an address obj_create handed out before `bound`. */
  predicate Below(p: Ptr, bound: nat)
  {
    p.None? || p.value < bound
  }

  /**
   * obj_create followed by the store that gives the new node its payload (a
   * placement-new container, a closure's `func`, a function's address): an
   * untyped node that nothing counts yet.
   */
  method CreateWith(rt: Runtime, size: nat, align: nat, data: Payload) returns (id: NodeId)
    requires rt.Valid()
    modifies rt
    ensures Grown(rt, 1) && id == old(rt.nextId) && id !in old(rt.nodes)
    ensures rt.nodes == old(rt.nodes)[id := Node(EMPTY, None, data, 0, 0)]
  {
    id := rt.Create(size, align);
    rt.SetPayload(id, data, 0);
  }

  /**
   * make_map() and make_array(): a new container typed with `t` (when t is
   * live) and held by the handle returned.  t must not be the node created,
   * which obj_create has not handed out yet.
   */
  method MakeTyped(rt: Runtime, size: nat, data: Payload, t: Ptr) returns (h: Handle)
    requires rt.Valid() && Below(t, rt.nextId)
    modifies rt
    ensures Grown(rt, 1) && fresh(h) && h.obj == Some(old(rt.nextId))
    ensures rt.nodes == WithTypedNode(old(rt.nodes), rt.typeKey, t, old(rt.nextId), data, 1)
  {
    ghost var before := rt.nodes;
    var id := CreateWith(rt, size, POINTER_ALIGN, data);
    ghost var h0 := rt.nodes;
    assert h0 == before[id := Node(EMPTY, None, data, 0, 0)];
    assert t != Some(id) && (t.Some? ==> (t.value in h0 <==> t.value in before));
    rt.SetType(Some(id), t);
    ghost var h1 := rt.nodes;
    assert Live(before, t).Some? ==> h1 == Retained(WithAttr(h0, id, rt.typeKey, t.value), t);
    assert Live(before, t).None? ==> h1 == h0;
    h := new Handle.FromPtr(rt, Some(id));
    TypedSteps(before, h0, h1, rt.nodes, rt.typeKey, t, id, data);
  }

  /**
   * make_char32_string(str): obj_create_char32_string, then the string type
   * set on the copy (when it is live), held by the handle returned.
   */
  method MakeString(rt: Runtime, str: seq<Char32>) returns (h: Handle)
    requires rt.Valid() && Terminated(str, 0) && Below(rt.stringType, rt.nextId)
    modifies rt
    ensures Grown(rt, 1) && fresh(h) && h.obj == Some(old(rt.nextId))
    ensures rt.nodes == WithTypedNode(old(rt.nodes), rt.typeKey, rt.stringType, old(rt.nextId), Str(Copy(str, 0)), 1)
  {
    ghost var before := rt.nodes;
    ghost var copy := Str(Copy(str, 0));
    var id := rt.CreateChar32String(str);
    NewNodeWithData(4 * (Strlen(str, 0) + 1), 4, copy);
    ghost var h0 := rt.nodes;
    assert h0 == before[id := Node(EMPTY, None, copy, 0, 0)];
    assert rt.stringType != Some(id) && (rt.stringType.Some? ==> (rt.stringType.value in h0 <==> rt.stringType.value in before));
    rt.SetType(Some(id), rt.stringType);
    ghost var h1 := rt.nodes;
    assert Live(before, rt.stringType).Some? ==> h1 == Retained(WithAttr(h0, id, rt.typeKey, rt.stringType.value), rt.stringType);
    assert Live(before, rt.stringType).None? ==> h1 == h0;
    h := new Handle.FromPtr(rt, Some(id));
    TypedSteps(before, h0, h1, rt.nodes, rt.typeKey, rt.stringType, id, copy);
  }

  /**
   * `map->insert(std::make_pair(key, v))` on node id's Map_Data followed by
   * an obj_inc_ref(v) that does not depend on whether the insert took place,
   * as TypeSystemInit writes it.
   */
  method InsertCounted(rt: Runtime, id: NodeId, key: string, v: Ptr)
    requires rt.Valid() && MapEntries(rt.nodes, Some(id)).Some?
    modifies rt
    ensures Steady(rt)
    ensures key !in old(EntriesOf(rt.nodes, id)) ==> rt.nodes == InsertEntry(old(rt.nodes), id, key, v)
    ensures key in old(EntriesOf(rt.nodes, id)) ==> rt.nodes == Retained(old(rt.nodes), v)
  {
    var entries := EntriesOf(rt.nodes, id);
    if key !in entries {
      rt.SetPayload(id, MapData(entries[key := v]), rt.nodes[id].dataSize);
    }
    rt.IncRef(v);
  }

  /**
   * `map->insert(std::make_pair(key, value))` on the Map_Data of p, as
   * insert() does it: a key already present is left alone and false is
   * returned; otherwise the entry is stored, the value counted once and true
   * returned.  A NULL p returns false.
   */
  method MapInsert(rt: Runtime, p: Ptr, key: string, value: Ptr) returns (inserted: bool)
    requires rt.Valid()
    modifies rt
    ensures Steady(rt)
    ensures var m := old(MapEntries(rt.nodes, p));
            && (inserted <==> m.Some? && key !in m.value)
            && (inserted ==> rt.nodes == Retained(WithData(old(rt.nodes), p.value, MapData(m.value[key := value])), value))
            && (!inserted ==> rt.nodes == old(rt.nodes))
    ensures inserted ==> Lookup(rt.nodes, p, key) == value
  {
    if p.None? {
      return false;
    }
    var m := MapEntries(rt.nodes, p);
    if m.None? || key in m.value {
      return false;  // a payload that is not a Map_Data is undefined behaviour
    }
    rt.SetPayload(p.value, MapData(m.value[key := value]), rt.nodes[p.value].dataSize);
    rt.IncRef(value);
    assert rt.nodes[p.value].data == MapData(m.value[key := value]);
    return true;
  }

  /**
   * A container fresh from make_map() or make_array() has its type as its
   * only attribute and is counted once, by the handle; size() is 0 on it.
   */
  lemma FreshContainer(nodes: Heap, typeKey: Key, arrayType: Ptr, mapType: Ptr, t: NodeId, id: NodeId, data: Payload)
    requires AttrsValid(nodes) && id !in nodes && t in nodes
    requires || (data == MapData(map[]) && mapType == Some(t) && arrayType != mapType)
             || (data == VectorData([]) && arrayType == Some(t))
    ensures var r := WithTypedNode(nodes, typeKey, Some(t), id, data, 1);
            && TypeOf(r, typeKey, id) == Some(t) && r[id].refCount == 1 && r[id].parent.None?
            && Contents(r[id].attrs) == multiset{Item(typeKey, t)}
            && SizeOf(r, typeKey, arrayType, mapType, Some(id)) == Returned(0)
  {
    GetAfterAdd(EMPTY, typeKey, t, typeKey);
  }

  /**
   * A string fresh from make_char32_string() holds the same string as its
   * argument, in a buffer that ends at its terminator, and is typed with the
   * string type when there is one.
   */
  lemma FreshString(nodes: Heap, typeKey: Key, stringType: Ptr, id: NodeId, str: seq<Char32>)
    requires AttrsValid(nodes) && id !in nodes && Terminated(str, 0)
    ensures var r := WithTypedNode(nodes, typeKey, stringType, id, Str(Copy(str, 0)), 1);
            && r[id].data.Str? && Terminated(r[id].data.buf, 0) && Text(r[id].data.buf) == Text(str)
            && |r[id].data.buf| == Strlen(str, 0) + 1
            && TypeOf(r, typeKey, id) == Live(nodes, stringType) && r[id].refCount == 1
  {
    CopyKeepsText(str);
    if Live(nodes, stringType).Some? {
      GetAfterAdd(EMPTY, typeKey, stringType.value, typeKey);
    }
  }

  /**
   * `x = make_map_internal()` into a null static handle: an untyped, empty
   * map counted once, by the static (the temporary's count and its release
   * cancel, as CopyThenDrop shows).
   */
  method MakeStaticMap(rt: Runtime) returns (id: NodeId)
    requires rt.Valid()
    modifies rt
    ensures Grown(rt, 1) && id == old(rt.nextId) && id !in old(rt.nodes)
    ensures rt.nodes == old(rt.nodes)[id := StaticMap()]
  {
    id := CreateWith(rt, MAP_DATA_SIZE, POINTER_ALIGN, MapData(map[]));
    rt.IncRef(Some(id));
  }

  /**
   * The first statements of TypeSystemInit: root_obj and types_obj become
   * two new maps n and n + 1; the root map holds "types" and the types map
   * holds the string type under "char32_string", each counted once more.
   * Storing a new node into a null static handle counts it once: the
   * temporary handle's count and its release cancel (CopyThenDrop).
   */
  method RootMapsStage(rt: Runtime) returns (n: NodeId)
    requires rt.Valid() && (rt.stringType.None? || rt.stringType.value in rt.nodes)
    modifies rt
    ensures Grown(rt, 2) && n == old(rt.nextId)
    ensures RootMade(rt.nodes, old(rt.nodes), n, rt.stringType)
  {
    ghost var before := rt.nodes;
    n := MakeStaticMap(rt);
    var t := MakeStaticMap(rt);
    ghost var h1 := before[n := StaticMap()][t := StaticMap()];
    assert rt.nodes == h1;
    InsertCounted(rt, n, "types", Some(t));
    ghost var h2 := InsertEntry(h1, n, "types", Some(t));
    assert rt.nodes == h2;
    assert EntriesOf(h2, t) == map[];
    InsertCounted(rt, t, "char32_string", rt.stringType);
    assert rt.nodes == RootHeap(before, n, rt.stringType);
    RootShape(before, n, rt.stringType);
  }

  /**
   * map_type_obj: a new map n + 2 that becomes its own type, is entered
   * under "map" in the types map and counted once more on top, and becomes
   * the type of the types map and of the root map.
   */
  method MapTypeStage(rt: Runtime, n: NodeId)
    requires rt.Valid() && rt.nextId == n + 2 && n in rt.nodes && n + 1 in rt.nodes
    requires rt.nodes[n + 1].data.MapData? && "map" !in EntriesOf(rt.nodes, n + 1)
    modifies rt
    ensures Grown(rt, 1)
    ensures MapTypeMade(rt.nodes, old(rt.nodes), n, rt.typeKey)
  {
    ghost var before := rt.nodes;
    var m := MakeStaticMap(rt);
    assert rt.nodes == before[n + 2 := StaticMap()];
    rt.SetType(Some(m), Some(m));
    InsertCounted(rt, n + 1, "map", Some(m));
    rt.IncRef(Some(m));  // the extra count
    assert rt.nodes == SelfTypedMap(before, n, rt.typeKey);
    rt.SetType(Some(n + 1), Some(m));
    rt.SetType(Some(n), Some(m));
    assert rt.nodes == MapTypeHeap(before, n, rt.typeKey);
    MapTypeShape(before, n, rt.typeKey);
  }

  /**
   * array_type_obj: a map n + 3 made by make_map(), so typed by the map type
   * n + 2, entered under "array" in the types map.  The temporary handle's
   * count passes to the static handle.
   */
  method ArrayTypeStage(rt: Runtime, n: NodeId)
    requires rt.Valid() && rt.nextId == n + 3 && n + 1 in rt.nodes && n + 2 in rt.nodes
    requires rt.nodes[n + 1].data.MapData? && "array" !in EntriesOf(rt.nodes, n + 1)
    modifies rt
    ensures Grown(rt, 1)
    ensures ArrayTypeMade(rt.nodes, old(rt.nodes), n, rt.typeKey)
  {
    ghost var before := rt.nodes;
    var a := CreateWith(rt, MAP_DATA_SIZE, POINTER_ALIGN, MapData(map[]));
    rt.SetType(Some(a), Some(n + 2));
    rt.IncRef(Some(a));
    assert rt.nodes == WithTypedNode(before, rt.typeKey, Some(n + 2), n + 3, MapData(map[]), 1);
    InsertCounted(rt, n + 1, "array", Some(a));
    ArrayTypeShape(before, n, rt.typeKey);
  }

  /**
   * The closure n + 4 holding destruct_map, attached to the map type n + 2;
   * then the closure n + 5 holding destruct_array is created, but it is
   * destruct_map again that is attached to the array type n + 3.
   */
  method DestructorsStage(rt: Runtime, n: NodeId)
    requires rt.Valid() && rt.nextId == n + 4 && n + 2 in rt.nodes && n + 3 in rt.nodes
    modifies rt
    ensures Grown(rt, 2)
    ensures DestructorsMade(rt.nodes, old(rt.nodes), n, rt.destructFunctionKey)
  {
    ghost var before := rt.nodes;
    var destructMap := CreateWith(rt, CLOSURE_DATA_SIZE, POINTER_ALIGN, Closure(DestructMap));
    ghost var h1 := rt.nodes;
    assert h1 == WithClosure(before, n + 4, DestructMap);
    assert n + 2 in h1 && n + 4 in h1;
    rt.AddAttr(Some(n + 2), rt.destructFunctionKey, Some(destructMap));
    ghost var h2 := rt.nodes;
    assert h2 == Attached(h1, n + 2, rt.destructFunctionKey, n + 4);
    var destructArray := CreateWith(rt, CLOSURE_DATA_SIZE, POINTER_ALIGN, Closure(DestructArray));
    ghost var h3 := rt.nodes;
    assert h3 == WithClosure(h2, n + 5, DestructArray);
    assert n + 3 in h3 && n + 4 in h3;
    rt.AddAttr(Some(n + 3), rt.destructFunctionKey, Some(destructMap));  // destruct_map_obj, not destruct_array_obj
    assert rt.nodes == Attached(h3, n + 3, rt.destructFunctionKey, n + 4);
    DestructorsShape(before, n, rt.destructFunctionKey);
  }

  /** The four stages in order, from n, the next fresh address. */
  method BuildAllStages(rt: Runtime) returns (n: NodeId)
    requires rt.Valid() && (rt.stringType.None? || rt.stringType.value in rt.nodes)
    modifies rt
    ensures Grown(rt, 6) && n == old(rt.nextId)
    ensures TypeMapsMade(rt.nodes, old(rt.nodes), n, rt.typeKey, rt.destructFunctionKey, rt.stringType)
  {
    ghost var before := rt.nodes;
    n := RootMapsStage(rt);
    ghost var h1 := rt.nodes;
    RootEntries(h1, before, n, rt.stringType);
    MapTypeStage(rt, n);
    ghost var h2 := rt.nodes;
    MapTypeEntries(h2, h1, before, n, rt.typeKey, rt.stringType);
    ArrayTypeStage(rt, n);
    ghost var h3 := rt.nodes;
    DestructorsStage(rt, n);
    StagedShape(before, h1, h2, h3, rt.nodes, n, rt.typeKey, rt.destructFunctionKey, rt.stringType);
  }

  /**
   * The middle of type_register<T>: obj_create_char32_string(name) and the
   * destructor node obj_create(sizeof(Closure_Data)) whose `data` is then
   * the lambda's address, each attached to the type map m that make_map()
   * has just made from the heap `before`.
   */
  method AttachTypeInfo(rt: Runtime, m: NodeId, reg: Registration, ghost before: Heap)
    requires rt.Valid() && Terminated(reg.name, 0) && reg.destructKey == rt.destructFunctionKey
    requires AttrsValid(before) && (forall id :: id in before ==> id < m) && rt.nextId == m + 1
    requires rt.nodes == WithTypedNode(before, reg.typeKey, reg.mapType, m, MapData(map[]), 1)
    modifies rt
    ensures Grown(rt, 2) && NamedMap(rt.nodes, before, m, reg)
  {
    ghost var typed := rt.nodes;
    var nameObj := CreateTypeInfo(rt, reg.name, reg.t);
    ghost var h0 := typed[nameObj := Node(EMPTY, None, Str(Copy(reg.name, 0)), 0, 0)];
    ghost var h1 := rt.nodes;
    AttachTwo(rt, m, reg.nameKey, nameObj, reg.destructKey, nameObj + 1);
    InfoSteps(typed, h0, h1, Attached(h1, m, reg.nameKey, nameObj), rt.nodes, m, nameObj, reg.nameKey, reg.destructKey, reg.name, reg.t);
    NamedMapShape(before, typed, rt.nodes, m, reg);
  }

  /** The two nodes type_register<T> makes for a type map: its name as a char32_string, then its destructor's address. */
  method CreateTypeInfo(rt: Runtime, name: seq<Char32>, t: NativeType) returns (nameObj: NodeId)
    requires rt.Valid() && Terminated(name, 0)
    modifies rt
    ensures Grown(rt, 2) && nameObj == old(rt.nextId)
    ensures rt.nodes == old(rt.nodes)[nameObj := Node(EMPTY, None, Str(Copy(name, 0)), 0, 0)]
                                     [nameObj + 1 := Node(EMPTY, None, FunctionPointer(RegisteredDestructor(t)), 0, 0)]
  {
    nameObj := rt.CreateChar32String(name);
    NewNodeWithData(4 * (Strlen(name, 0) + 1), 4, Str(Copy(name, 0)));
    var destructorObj := CreateWith(rt, CLOSURE_DATA_SIZE, POINTER_ALIGN, FunctionPointer(RegisteredDestructor(t)));
  }

  /** obj_add_attr(m, key1, v1), then obj_add_attr(m, key2, v2), on live nodes. */
  method AttachTwo(rt: Runtime, m: NodeId, key1: Key, v1: NodeId, key2: Key, v2: NodeId)
    requires rt.Valid() && m in rt.nodes && v1 in rt.nodes && v2 in rt.nodes
    modifies rt
    ensures Grown(rt, 0)
    ensures rt.nodes == Attached(Attached(old(rt.nodes), m, key1, v1), m, key2, v2)
  {
    rt.AddAttr(Some(m), key1, Some(v1));
    rt.AddAttr(Some(m), key2, Some(v2));
  }

  /**
   * The store's side of type_register<T>: make_map() with the map type
   * `reg.mapType`, the name and destructor attached, `types_obj.insert`, and
   * the count type_db's copy takes when `reg.counted` (T was new there).
   */
  method RegisterNodes(rt: Runtime, reg: Registration) returns (h: Handle)
    requires rt.Valid() && Terminated(reg.name, 0)
    requires reg.typeKey == rt.typeKey && reg.destructKey == rt.destructFunctionKey
    requires reg.types.Some? ==> reg.types.value in rt.nodes
    requires Below(reg.mapType, rt.nextId)
    modifies rt
    ensures Grown(rt, 3) && fresh(h) && h.obj == Some(old(rt.nextId))
    ensures TypeRegistered(rt.nodes, old(rt.nodes), old(rt.nextId), reg)
  {
    ghost var before, n := rt.nodes, rt.nextId;
    h := MakeNamedMap(rt, reg);
    ghost var h2 := rt.nodes;
    EnterType(rt, reg.types, reg.utf8Name, h.obj.value, reg.counted);
    RegisterSteps(before, n, h2, rt.nodes, reg);
  }

  /** make_map() with the map type `reg.mapType`, then its name and destructor attached. */
  method MakeNamedMap(rt: Runtime, reg: Registration) returns (h: Handle)
    requires rt.Valid() && Terminated(reg.name, 0) && reg.typeKey == rt.typeKey && reg.destructKey == rt.destructFunctionKey
    requires Below(reg.mapType, rt.nextId)
    modifies rt
    ensures Grown(rt, 3) && fresh(h) && h.obj == Some(old(rt.nextId))
    ensures NamedMap(rt.nodes, old(rt.nodes), old(rt.nextId), reg)
  {
    ghost var before := rt.nodes;
    h := MakeTyped(rt, MAP_DATA_SIZE, MapData(map[]), reg.mapType);
    AttachTypeInfo(rt, h.obj.value, reg, before);
  }

  /** types_obj.insert({name, m}), then the count type_db's copy of m takes when `counted`. */
  method EnterType(rt: Runtime, types: Ptr, name: string, m: NodeId, counted: bool)
    requires rt.Valid() && m in rt.nodes
    modifies rt
    ensures Steady(rt) && rt.nodes == Entered(old(rt.nodes), types, name, m, counted)
  {
    var inserted := MapInsert(rt, types, name, Some(m));
    if counted {
      rt.IncRef(Some(m));  // the copy type_db keeps
    }
  }

  /**
   * The first two steps of TypeSystemInit on the store, from n, the next
   * fresh address: the type maps (`built`), then
   * obj_attr_hash_string(U"@object.type_name") on them.
   */
  method BuildAndIntern(rt: Runtime) returns (n: NodeId, r: Outcome<Key>, ghost built: Heap, ghost t: KeyTable, ghost p: Probe)
    requires rt.Valid() && rt.keyMap.buckets.Some? && (rt.stringType.None? || rt.stringType.value in rt.nodes)
    modifies rt
    ensures rt.Valid() && rt.KeysUnchanged() && rt.destructorCalls == old(rt.destructorCalls) && n == old(rt.nextId)
    ensures TypeMapsMade(built, old(rt.nodes), n, rt.typeKey, rt.destructFunctionKey, rt.stringType)
    ensures AttrsValid(built) && old(rt.keyMap).Valid() && n + 6 <= rt.nextId
    ensures t == KeyTable(old(rt.keyMap), built, rt.typeKey, rt.stringType) && t.Valid()
    ensures p == ProbeFrom(t, StringSeeker(TYPE_NAME + [0]), TYPE_NAME_KEY_VALUE, 0)
    ensures TypeNameInterned(t, n + 6, p, r, rt.nodes, rt.keyMap, rt.nextId)
  {
    ghost var k0 := rt.keyMap;
    n := BuildAllStages(rt);
    built := rt.nodes;
    t := rt.Table();
    assert t == KeyTable(k0, built, rt.typeKey, rt.stringType);
    r, p := InternTypeName(rt, t, n + 6);
  }

  /** obj_attr_hash_string(U"@object.type_name"), whose hash is TYPE_NAME_KEY_VALUE. */
  method InternTypeName(rt: Runtime, ghost t: KeyTable, ghost n: NodeId) returns (r: Outcome<Key>, ghost p: Probe)
    requires rt.Valid() && rt.keyMap.buckets.Some? && (rt.stringType.None? || rt.stringType.value in rt.nodes)
    requires t == rt.Table() && n == rt.nextId
    modifies rt
    ensures rt.Valid() && rt.KeysUnchanged() && rt.destructorCalls == old(rt.destructorCalls)
    ensures t.Valid() && p == ProbeFrom(t, StringSeeker(TYPE_NAME + [0]), TYPE_NAME_KEY_VALUE, 0)
    ensures TypeNameInterned(t, n, p, r, rt.nodes, rt.keyMap, rt.nextId)
  {
    TypeNameKey();
    p := ProbeFrom(t, StringSeeker(TYPE_NAME + [0]), TYPE_NAME_KEY_VALUE, 0);
    r := rt.HashStringIntern(TYPE_NAME + [0]);
  }

  /**
   * The last step of TypeSystemInit on the store:
   * type_register<IUnknown_Packer>(U"COM_IUnknown") with type_name_key
   * nameKey, the types map n + 1 and the map type n + 2, whose handle is
   * dropped at once.  "COM_IUnknown" is not in the types map yet, so the
   * new type map keeps the count of its entry and is not freed.
   */
  method RegisterCom(rt: Runtime, n: NodeId, nameKey: Key, counted: bool) returns (comType: Ptr, ghost registered: Heap)
    requires rt.Valid() && n + 2 < rt.nextId && Inserts(rt.nodes, Some(n + 1), "COM_IUnknown")
    modifies rt
    ensures rt.Valid() && rt.GlobalsUnchanged() && rt.nextId == old(rt.nextId) + 3
    ensures rt.destructorCalls == old(rt.destructorCalls) && comType == Some(old(rt.nextId))
    ensures TypeRegistered(registered, old(rt.nodes), old(rt.nextId),
                           ComRegistration(rt.typeKey, nameKey, rt.destructFunctionKey, n, counted))
    ensures rt.nodes == Released(registered, Some(old(rt.nextId)))
  {
    var reg := ComRegistration(rt.typeKey, nameKey, rt.destructFunctionKey, n, counted);
    assert Inserts(rt.nodes, reg.types, reg.utf8Name);
    ghost var before, m := rt.nodes, rt.nextId;
    var h := RegisterNodes(rt, reg);
    registered := rt.nodes;
    RegisteredMapKept(before, registered, m, reg, rt.tearingDown);
    comType := h.obj;
    h.Drop(rt);
  }

  /**
   * The work of TypeSystemInit on the store, as InitNodesMade says;
   * `counted` says whether type_db lacks IUnknown_Packer, and comType is
   * the new type map once the interning call returned.
   */
  method InitNodes(rt: Runtime, counted: bool)
    returns (n: NodeId, r: Outcome<Key>, comType: Ptr,
             ghost built: Heap, ghost p: Probe, ghost interned: Heap, ghost m: NodeId, ghost registered: Heap)
    requires rt.Valid() && rt.keyMap.buckets.Some? && (rt.stringType.None? || rt.stringType.value in rt.nodes)
    modifies rt
    ensures rt.Valid() && rt.KeysUnchanged() && rt.destructorCalls == old(rt.destructorCalls) && n == old(rt.nextId)
    ensures comType == if r.Returned? then Some(m) else None
    ensures n + 6 <= rt.nextId && Below(comType, rt.nextId)
    ensures InitNodesMade(old(rt.nodes), old(rt.keyMap), n, rt.typeKey, rt.destructFunctionKey, rt.stringType, counted,
                          built, p, r, interned, m, registered, rt.nodes, rt.keyMap, rt.nextId)
    ensures p == ProbeFrom(KeyTable(old(rt.keyMap), built, rt.typeKey, rt.stringType), StringSeeker(TYPE_NAME + [0]), TYPE_NAME_KEY_VALUE, 0)
  {
    ghost var before := rt.nodes;
    ghost var t;
    n, r, built, t, p := BuildAndIntern(rt);
    interned, m, registered := rt.nodes, rt.nextId, rt.nodes;
    comType := None;
    if !r.Returned? {
      return;  // the interning loop spins, or its behaviour is undefined
    }
    InternedTypesMap(before, built, interned, n, rt.typeKey, rt.destructFunctionKey, rt.stringType,
                     InternedNode(TYPE_NAME + [0], rt.typeKey, rt.stringType));
    comType, registered := RegisterCom(rt, n, r.value, counted);
  }

  /**
   * The statics of Easy_Object: root_obj, types_obj, map_type_obj,
   * array_type_obj, type_name_key and type_db, over the object store.
   */
  class TypeSystem {
    const rt: Runtime
    var root: Ptr
    var types: Ptr
    var mapType: Ptr
    var arrayType: Ptr
    var typeNameKey: Key
    /** type_db: the type map each registered C++ type was given. */
    var typeDb: map<NativeType, Ptr>

    /**
     * The store is consistent, and the statics and the string type point at
     * nodes obj_create has already handed out, so never at one created later.
     * The root, types and container-type handles are set together, by
     * TypeSystemInit.
     */
    ghost predicate Valid()
      reads this, rt
    {
      && rt.Valid() && Below(rt.stringType, rt.nextId) && StaticsBelow(rt.nextId)
      && (root.None? ==> types.None? && mapType.None? && arrayType.None?)
    }

    /** Every pointer the statics hold is NULL or an address below `bound`. */
    ghost predicate StaticsBelow(bound: nat)
      reads this
    {
      && Below(root, bound) && Below(types, bound) && Below(mapType, bound) && Below(arrayType, bound)
      && forall t :: t in typeDb ==> Below(typeDb[t], bound)
    }

    lemma StaticsBelowMono(a: nat, b: nat)
      requires StaticsBelow(a) && a <= b
      ensures StaticsBelow(b)
    {
    }

    /** The statics as the program starts: null handles, a zero key and an empty registry. */
    constructor (rt: Runtime)
      requires rt.Valid() && (rt.stringType.None? || rt.stringType.value < rt.nextId)
      ensures Valid() && this.rt == rt
      ensures root.None? && types.None? && mapType.None? && arrayType.None?
      ensures typeNameKey == 0 && typeDb == map[]
    {
      this.rt := rt;
      root := None;
      types := None;
      mapType := None;
      arrayType := None;
      typeNameKey := 0;
      typeDb := map[];
    }

    /** make_map(): a new, empty Map_Data typed by the map type, held by the handle returned. */
    method MakeMap() returns (h: Handle)
      requires Valid()
      modifies rt
      ensures Valid() && Grown(rt, 1) && fresh(h) && h.obj == Some(old(rt.nextId))
      ensures rt.nodes == WithTypedNode(old(rt.nodes), rt.typeKey, mapType, old(rt.nextId), MapData(map[]), 1)
    {
      h := MakeTyped(rt, MAP_DATA_SIZE, MapData(map[]), mapType);
    }

    /** make_array(): a new, empty Vector_Data typed by the array type, held by the handle returned. */
    method MakeArray() returns (h: Handle)
      requires Valid()
      modifies rt
      ensures Valid() && Grown(rt, 1) && fresh(h) && h.obj == Some(old(rt.nextId))
      ensures rt.nodes == WithTypedNode(old(rt.nodes), rt.typeKey, arrayType, old(rt.nextId), VectorData([]), 1)
    {
      h := MakeTyped(rt, VECTOR_DATA_SIZE, VectorData([]), arrayType);
    }

    /** make_char32_string(str): a copy of the string typed with the string type, held by the handle returned. */
    method MakeChar32String(str: seq<Char32>) returns (h: Handle)
      requires Valid() && Terminated(str, 0)
      modifies rt
      ensures Valid() && Grown(rt, 1) && fresh(h) && h.obj == Some(old(rt.nextId))
      ensures rt.nodes == WithTypedNode(old(rt.nodes), rt.typeKey, rt.stringType, old(rt.nextId), Str(Copy(str, 0)), 1)
    {
      h := MakeString(rt, str);
    }

    /**
     * make_raw(data, copy_size, align): the first copy_size bytes, untyped,
     * held by the handle returned; no payload at all when copy_size is 0.
     */
    method MakeRaw(bytes: seq<bv8>, copySize: nat, align: nat) returns (h: Handle)
      requires Valid() && copySize <= |bytes|
      modifies rt
      ensures Valid() && Grown(rt, 1) && fresh(h) && h.obj == Some(old(rt.nextId))
      ensures var id := old(rt.nextId);
              && rt.nodes.Keys == old(rt.nodes.Keys) + {id}
              && (forall x :: x in old(rt.nodes) ==> rt.nodes[x] == old(rt.nodes[x]))
              && rt.nodes[id].attrs == EMPTY && rt.nodes[id].refCount == 1
              && (copySize == 0 <==> rt.nodes[id].data.NoData?)
              && (copySize > 0 ==> rt.nodes[id].data == Raw(bytes[..copySize]))
    {
      var data := if copySize == 0 then NoData else Raw(bytes[..copySize]);
      var id := CreateWith(rt, copySize, align, data);
      h := new Handle.FromPtr(rt, Some(id));
    }

    /**
     * The part of TypeSystemInit that builds the type maps, from a store
     * whose string type, if any, is live: the heap TypeMapsMade describes,
     * with the statics pointing at the new root, types, map type and array
     * type maps.
     */
    method BuildTypeMaps()
      requires Valid() && root.None? && (rt.stringType.None? || rt.stringType.value in rt.nodes)
      modifies this, rt
      ensures Valid() && Grown(rt, 6)
      ensures var n := old(rt.nextId);
              root == Some(n) && types == Some(n + 1) && mapType == Some(n + 2) && arrayType == Some(n + 3)
      ensures typeNameKey == old(typeNameKey) && typeDb == old(typeDb)
      ensures TypeMapsMade(rt.nodes, old(rt.nodes), old(rt.nextId), rt.typeKey, rt.destructFunctionKey, rt.stringType)
    {
      var n := BuildAllStages(rt);
      StaticsBelowMono(n, n + 6);
      root, types, mapType, arrayType := Some(n), Some(n + 1), Some(n + 2), Some(n + 3);
    }

    /**
     * type_register<T>(name): a new type map holding the name and the
     * destructor of T, entered in the types map under the UTF-8 name and,
     * the first time T is registered, in type_db; the handle returned holds
     * the type map.
     */
    method TypeRegister(t: NativeType, name: seq<Char32>, utf8Name: string) returns (h: Handle)
      requires Valid() && Terminated(name, 0)
      requires types.Some? ==> types.value in rt.nodes && TypeOf(rt.nodes, rt.typeKey, types.value) == mapType
      modifies this, rt
      ensures Valid() && Grown(rt, 3) && fresh(h) && h.obj == Some(old(rt.nextId))
      ensures root == old(root) && types == old(types) && mapType == old(mapType) && arrayType == old(arrayType)
      ensures typeNameKey == old(typeNameKey)
      ensures typeDb == if t in old(typeDb) then old(typeDb) else old(typeDb)[t := Some(old(rt.nextId))]
      ensures TypeRegistered(rt.nodes, old(rt.nodes), old(rt.nextId),
                             Registration(t, name, utf8Name, rt.typeKey, typeNameKey, rt.destructFunctionKey,
                                          mapType, types, t !in old(typeDb)))
    {
      StaticsBelowMono(rt.nextId, rt.nextId + 3);
      h := RegisterNodes(rt, Registration(t, name, utf8Name, rt.typeKey, typeNameKey, rt.destructFunctionKey,
                                            mapType, types, t !in typeDb));
      if t !in typeDb {
        typeDb := typeDb[t := h.obj];
      }
    }

    /**
     * pack_COM_object(unk): a node holding the IUnknown* (whose AddRef is
     * COM's business), typed with type_db[IUnknown_Packer] and held by the
     * handle returned.  The lookup inserts a null entry when IUnknown_Packer
     * is missing, so the node is then left untyped.
     */
    method PackComObject(unk: nat) returns (h: Handle)
      requires Valid()
      modifies this, rt
      ensures Valid() && Grown(rt, 1) && fresh(h) && h.obj == Some(old(rt.nextId))
      ensures root == old(root) && types == old(types) && mapType == old(mapType) && arrayType == old(arrayType)
      ensures typeNameKey == old(typeNameKey) && typeDb == ComEntry(old(typeDb))
      ensures rt.nodes == WithTypedNode(old(rt.nodes), rt.typeKey, typeDb[IUnknownPacker], old(rt.nextId), ComPointer(unk), 1)
    {
      typeDb := ComEntry(typeDb);
      h := MakeTyped(rt, POINTER_SIZE, ComPointer(unk), typeDb[IUnknownPacker]);
      StaticsBelowMono(old(rt.nextId), rt.nextId);
    }

    /**
     * TypeSystemInit(): nothing once the root exists.  Otherwise the type
     * maps, type_name_key and the COM_IUnknown type are made as
     * InitNodesMade says, and the statics set: the root, types, map type
     * and array type maps are the first four new nodes; type_name_key is
     * the key obj_attr_hash_string returned and IUnknown_Packer, when
     * type_db lacked it, maps to the new type map m.  When that call does
     * not return, the statics other than the maps stay as they were.
     */
    method TypeSystemInit() returns (ghost built: Heap, ghost p: Probe, ghost r: Outcome<Key>, ghost interned: Heap,
                                     ghost m: NodeId, ghost registered: Heap)
      requires Valid() && rt.keyMap.buckets.Some? && (rt.stringType.None? || rt.stringType.value in rt.nodes)
      modifies this, rt
      ensures Valid() && rt.KeysUnchanged() && rt.destructorCalls == old(rt.destructorCalls)
      ensures old(root).Some? ==>
                && rt.nodes == old(rt.nodes) && rt.keyMap == old(rt.keyMap) && rt.nextId == old(rt.nextId)
                && root == old(root) && types == old(types) && mapType == old(mapType) && arrayType == old(arrayType)
                && typeNameKey == old(typeNameKey) && typeDb == old(typeDb)
      ensures old(root).None? ==>
                var n := old(rt.nextId);
                && root == Some(n) && types == Some(n + 1) && mapType == Some(n + 2) && arrayType == Some(n + 3)
                && InitNodesMade(old(rt.nodes), old(rt.keyMap), n, rt.typeKey, rt.destructFunctionKey, rt.stringType,
                                 IUnknownPacker !in old(typeDb), built, p, r, interned, m, registered,
                                 rt.nodes, rt.keyMap, rt.nextId)
                && p == ProbeFrom(KeyTable(old(rt.keyMap), built, rt.typeKey, rt.stringType), StringSeeker(TYPE_NAME + [0]), TYPE_NAME_KEY_VALUE, 0)
                && typeNameKey == (if r.Returned? then r.value else old(typeNameKey))
                && typeDb == if r.Returned? && IUnknownPacker !in old(typeDb) then old(typeDb)[IUnknownPacker := Some(m)]
                             else old(typeDb)
    {
      built, p, r, interned, m, registered := rt.nodes, Spins, UndefinedBehaviour, rt.nodes, rt.nextId, rt.nodes;
      if root.Some? {
        return;
      }
      ghost var after, keyMap, next;
      built, p, r, interned, m, registered, after, keyMap, next := InitFromScratch();
    }

    /**
     * TypeSystemInit() when the root does not exist yet; `after`, `keyMap`
     * and `next` are the store's nodes, key map and next address at the end.
     */
    method InitFromScratch() returns (ghost built: Heap, ghost p: Probe, ghost r: Outcome<Key>, ghost interned: Heap,
                                      ghost m: NodeId, ghost registered: Heap,
                                      ghost after: Heap, ghost keyMap: HashMap, ghost next: NodeId)
      requires Valid() && root.None? && rt.keyMap.buckets.Some? && (rt.stringType.None? || rt.stringType.value in rt.nodes)
      modifies this, rt
      ensures Valid() && rt.KeysUnchanged() && rt.destructorCalls == old(rt.destructorCalls)
      ensures rt.nodes == after && rt.keyMap == keyMap && rt.nextId == next
      ensures var n := old(rt.nextId);
              && root == Some(n) && types == Some(n + 1) && mapType == Some(n + 2) && arrayType == Some(n + 3)
              && InitNodesMade(old(rt.nodes), old(rt.keyMap), n, old(rt.typeKey), old(rt.destructFunctionKey),
                               old(rt.stringType), IUnknownPacker !in old(typeDb), built, p, r, interned, m, registered,
                               after, keyMap, next)
              && p == ProbeFrom(KeyTable(old(rt.keyMap), built, old(rt.typeKey), old(rt.stringType)),
                                StringSeeker(TYPE_NAME + [0]), TYPE_NAME_KEY_VALUE, 0)
              && typeNameKey == (if r.Returned? then r.value else old(typeNameKey))
              && typeDb == if r.Returned? && IUnknownPacker !in old(typeDb) then old(typeDb)[IUnknownPacker := Some(m)]
                           else old(typeDb)
    {
      ghost var lo := rt.nextId;
      var n, typeName, comType;
      n, typeName, comType, built, p, interned, m, registered := InitNodes(rt, IUnknownPacker !in typeDb);
      r := typeName;
      after, keyMap, next := rt.nodes, rt.keyMap, rt.nextId;
      SetStatics(n, typeName, comType, lo, rt.nextId);
    }

    /**
     * The stores TypeSystemInit makes into the statics: the root, types,
     * map type and array type maps from n on; when the interning call
     * returned, type_name_key and, for an IUnknown_Packer not yet in
     * type_db, its type map.
     */
    method SetStatics(n: NodeId, typeName: Outcome<Key>, comType: Ptr, ghost lo: nat, ghost bound: nat)
      requires StaticsBelow(lo) && lo <= bound && n + 4 <= bound && Below(comType, bound)
      modifies this
      ensures rt.nodes == old(rt.nodes) && rt.keyMap == old(rt.keyMap) && rt.nextId == old(rt.nextId)
      ensures rt.typeKey == old(rt.typeKey) && rt.hashFunctionKey == old(rt.hashFunctionKey)
      ensures rt.compareEqFunctionKey == old(rt.compareEqFunctionKey) && rt.destructFunctionKey == old(rt.destructFunctionKey)
      ensures rt.stringType == old(rt.stringType) && rt.tearingDown == old(rt.tearingDown)
      ensures rt.destructorCalls == old(rt.destructorCalls) && rt.destroyed == old(rt.destroyed)
      ensures StaticsBelow(bound)
      ensures root == Some(n) && types == Some(n + 1) && mapType == Some(n + 2) && arrayType == Some(n + 3)
      ensures typeNameKey == (if typeName.Returned? then typeName.value else old(typeNameKey))
      ensures typeDb == if typeName.Returned? && IUnknownPacker !in old(typeDb) then old(typeDb)[IUnknownPacker := comType]
                        else old(typeDb)
    {
      StaticsBelowMono(lo, bound);
      root, types, mapType, arrayType := Some(n), Some(n + 1), Some(n + 2), Some(n + 3);
      if typeName.Returned? {
        typeNameKey := typeName.value;
        if IUnknownPacker !in typeDb {
          typeDb := typeDb[IUnknownPacker := comType];
        }
      }
    }
  }

  /**
   * initialize(): obj_init_key_map, then TypeSystemInit on the statics as
   * the program starts.  The interning of "@object.type_name" returns, so
   * type_name_key is its string hash, and IUnknown_Packer is registered:
   * the key map bootstrap takes seven nodes, the type maps six, the
   * interned type name one, and COM_IUnknown's type map is the next.
   */
  method Initialize(rt: Runtime) returns (ts: TypeSystem)
    requires rt.Valid()
    modifies rt
    ensures fresh(ts) && ts.rt == rt && ts.Valid()
    ensures var n := old(rt.nextId) + 7;
            && ts.root == Some(n) && ts.types == Some(n + 1) && ts.mapType == Some(n + 2) && ts.arrayType == Some(n + 3)
            && ts.typeNameKey == TYPE_NAME_KEY_VALUE && ts.typeDb == map[IUnknownPacker := Some(n + 7)]
            && rt.nextId == n + 10
  {
    ghost var t, before := InitStore(rt);
    ts := InitStatics(rt, t, before, old(rt.nextId));
  }

  /** obj_init_key_map, with what TypeSystemInit needs of the store it leaves. */
  method InitStore(rt: Runtime) returns (ghost t: KeyTable, ghost before: Heap)
    requires rt.Valid()
    modifies rt
    ensures rt.Valid() && t == rt.Table() && before == old(rt.nodes) && rt.nextId == old(rt.nextId) + 7
    ensures Initialised(t, before, old(rt.nextId)) && rt.destructFunctionKey == DESTRUCT_FUNCTION_KEY_VALUE
    ensures rt.keyMap.buckets.Some? && rt.stringType == Some(old(rt.nextId) + 5) && old(rt.nextId) + 5 in rt.nodes
  {
    before := rt.nodes;
    rt.InitKeyMap();
    t := rt.Table();
    InitReady(t, before, old(rt.nextId));
  }

  /** TypeSystemInit on the statics as the program starts, once obj_init_key_map has run from n0. */
  method InitStatics(rt: Runtime, ghost t: KeyTable, ghost before: Heap, ghost n0: NodeId) returns (ts: TypeSystem)
    requires rt.Valid() && t == rt.Table() && rt.nextId == n0 + 7
    requires Initialised(t, before, n0) && rt.destructFunctionKey == DESTRUCT_FUNCTION_KEY_VALUE
    requires rt.keyMap.buckets.Some? && rt.stringType == Some(n0 + 5) && n0 + 5 in rt.nodes
    modifies rt
    ensures fresh(ts) && ts.rt == rt && ts.Valid()
    ensures var n := n0 + 7;
            && ts.root == Some(n) && ts.types == Some(n + 1) && ts.mapType == Some(n + 2) && ts.arrayType == Some(n + 3)
            && ts.typeNameKey == TYPE_NAME_KEY_VALUE && ts.typeDb == map[IUnknownPacker := Some(n + 7)]
            && rt.nextId == n + 10
  {
    ts := new TypeSystem(rt);
    ghost var built, p, r, interned, m, registered := ts.TypeSystemInit();
    InitThenTypeSystem(t, before, n0, true, built, p, r, interned, m, registered, rt.nodes, rt.keyMap, rt.nextId);
  }

  /**
   * An Easy_Object: the pointer it holds, or NULL.  Each constructor that
   * takes a pointer counts it once and the destructor and assignment release
   * it once, as their contracts state; which count belongs to which handle
   * is not tracked.
   */
  class Handle {
    var obj: Ptr

    /** Easy_Object(): a null handle. */
    constructor Null()
      ensures obj.None?
    {
      obj := None;
    }

    /** Easy_Object(Object*): holds the pointer and counts it. */
    constructor FromPtr(rt: Runtime, p: Ptr)
      requires rt.Valid()
      modifies rt
      ensures obj == p
      ensures Steady(rt) && rt.nodes == Retained(old(rt.nodes), p)
    {
      obj := p;
      new;
      rt.IncRef(p);
    }

    /** The copy constructor: holds the other handle's pointer and counts it. */
    constructor Copy(rt: Runtime, other: Handle)
      requires rt.Valid()
      modifies rt
      ensures obj == other.obj
      ensures Steady(rt) && rt.nodes == Retained(old(rt.nodes), other.obj)
    {
      obj := other.obj;
      new;
      rt.IncRef(obj);
    }

    /** The move constructor: takes the other handle's pointer and leaves it null; no count changes. */
    constructor Move(other: Handle)
      modifies other
      ensures obj == old(other.obj) && other.obj.None?
    {
      obj := other.obj;
      new;
      other.obj := None;
    }

    /** is_null() */
    predicate IsNull()
      reads this
    {
      obj.None?
    }

    /**
     * is_COM_object(): false for a null handle, without touching type_db;
     * otherwise whether the object's type is type_db[IUnknown_Packer],
     * looked up with operator[], which first inserts a null entry when
     * IUnknown_Packer was never registered (and a later type_register of it
     * does not overwrite that entry).
     */
    method IsComObject(ts: TypeSystem) returns (b: bool)
      requires ts.Valid() && (obj.Some? ==> obj.value in ts.rt.nodes)
      modifies ts
      ensures ts.Valid() && ts.root == old(ts.root) && ts.types == old(ts.types)
      ensures ts.mapType == old(ts.mapType) && ts.arrayType == old(ts.arrayType) && ts.typeNameKey == old(ts.typeNameKey)
      ensures ts.typeDb == if obj.None? then old(ts.typeDb) else ComEntry(old(ts.typeDb))
      ensures b <==> obj.Some? && TypeOf(ts.rt.nodes, ts.rt.typeKey, obj.value) == ts.typeDb[IUnknownPacker]
    {
      if obj.None? {
        return false;
      }
      ts.typeDb := ComEntry(ts.typeDb);
      b := TypeOf(ts.rt.nodes, ts.rt.typeKey, obj.value) == ts.typeDb[IUnknownPacker];
    }

    /**
     * get_COM_interface(result): E_FAIL for a null handle or one that is not
     * a COM object; otherwise QueryInterface is called on the IUnknown* the
     * object holds.  type_db changes as in is_COM_object.
     */
    method GetComInterface(ts: TypeSystem) returns (q: ComQuery)
      requires ts.Valid() && (obj.Some? ==> obj.value in ts.rt.nodes)
      modifies ts
      ensures ts.Valid() && ts.root == old(ts.root) && ts.types == old(ts.types)
      ensures ts.mapType == old(ts.mapType) && ts.arrayType == old(ts.arrayType) && ts.typeNameKey == old(ts.typeNameKey)
      ensures ts.typeDb == if obj.None? then old(ts.typeDb) else ComEntry(old(ts.typeDb))
      ensures q.Failed? <==> !IsCom(ts.rt.nodes, ts.rt.typeKey, old(ts.typeDb), obj)
      ensures q.QueriedThrough? ==> ts.rt.nodes[obj.value].data == ComPointer(q.unk)
      ensures q.NotPacked? ==> obj.Some? && !ts.rt.nodes[obj.value].data.ComPointer?
    {
      if obj.None? {
        return Failed;
      }
      var isCom := IsComObject(ts);
      if !isCom {
        return Failed;
      }
      match ts.rt.nodes[obj.value].data
      case ComPointer(unk) => q := QueriedThrough(unk);
      case _ => q := NotPacked;
    }

    /**
     * The copy-assignment operator: nothing happens when both handles hold
     * the same pointer; otherwise the old pointer is released, then the new
     * one is held and counted.
     */
    method Assign(rt: Runtime, other: Handle)
      requires rt.Valid()
      modifies this, rt
      ensures obj == old(other.obj) && AfterRelease(rt)
      ensures old(obj) == old(other.obj) ==> rt.nodes == old(rt.nodes) && rt.destructorCalls == old(rt.destructorCalls)
      ensures old(obj) != old(other.obj) && !Frees(old(rt.nodes), old(rt.tearingDown), old(obj)) ==>
                && rt.nodes == Retained(Released(old(rt.nodes), old(obj)), old(other.obj))
                && rt.destructorCalls == old(rt.destructorCalls)
      ensures old(obj) != old(other.obj) && Frees(old(rt.nodes), old(rt.tearingDown), old(obj)) ==>
                old(obj).value !in rt.nodes
    {
      if obj == other.obj {
        return;
      }
      rt.DecRef(obj);
      obj := other.obj;
      rt.IncRef(obj);
    }

    /** The destructor: releases the held pointer once. */
    method Drop(rt: Runtime)
      requires rt.Valid()
      modifies rt
      ensures AfterRelease(rt)
      ensures !Frees(old(rt.nodes), old(rt.tearingDown), obj) ==>
                rt.nodes == Released(old(rt.nodes), obj) && rt.destructorCalls == old(rt.destructorCalls)
      ensures Frees(old(rt.nodes), old(rt.tearingDown), obj) ==> obj.value !in rt.nodes
    {
      rt.DecRef(obj);
    }

    /**
     * insert(key, value) on a map handle: a key already present is left
     * alone and false is returned; otherwise the entry is added, the value
     * counted once and true returned.  A null handle returns false.
     */
    method Insert(ts: TypeSystem, key: string, value: Handle) returns (inserted: bool)
      requires ts.Valid()
      requires obj.Some? ==> obj.value in ts.rt.nodes && TypeOf(ts.rt.nodes, ts.rt.typeKey, obj.value) == ts.mapType
      modifies ts.rt
      ensures Steady(ts.rt)
      ensures var m := old(MapEntries(ts.rt.nodes, obj));
              && (inserted <==> m.Some? && key !in m.value)
              && (inserted ==>
                    ts.rt.nodes == Retained(WithData(old(ts.rt.nodes), obj.value, MapData(m.value[key := value.obj])), value.obj))
              && (!inserted ==> ts.rt.nodes == old(ts.rt.nodes))
      ensures inserted ==> Lookup(ts.rt.nodes, obj, key) == value.obj
    {
      inserted := MapInsert(ts.rt, obj, key, value.obj);
    }

    /**
     * get(key) on a map handle: a handle on the stored value, which it
     * counts; a null handle for a null map handle or an absent key.  The map
     * is not changed.
     */
    method Get(ts: TypeSystem, key: string) returns (r: Handle)
      requires ts.Valid()
      requires obj.Some? ==> obj.value in ts.rt.nodes && TypeOf(ts.rt.nodes, ts.rt.typeKey, obj.value) == ts.mapType
      modifies ts.rt
      ensures fresh(r) && r.obj == old(Lookup(ts.rt.nodes, obj, key))
      ensures Steady(ts.rt) && ts.rt.nodes == Retained(old(ts.rt.nodes), r.obj)
      ensures MapEntries(ts.rt.nodes, obj) == old(MapEntries(ts.rt.nodes, obj))
    {
      if obj.None? {
        r := new Handle.Null();
        return;
      }
      var m := MapEntries(ts.rt.nodes, obj);
      if m.None? || key !in m.value {
        r := new Handle.Null();
        return;
      }
      r := new Handle.FromPtr(ts.rt, m.value[key]);
    }

    /**
     * set(key, value) on a map handle: an absent key is inserted; otherwise
     * the stored value is released once, replaced by the new one, and the new
     * one counted once.  No other entry changes.
     */
    method Set(ts: TypeSystem, key: string, value: Handle)
      requires ts.Valid()
      requires obj.Some? ==> obj.value in ts.rt.nodes && TypeOf(ts.rt.nodes, ts.rt.typeKey, obj.value) == ts.mapType
      modifies ts.rt
      ensures AfterRelease(ts.rt)
      ensures var m := old(MapEntries(ts.rt.nodes, obj));
              && (m.None? ==> ts.rt.nodes == old(ts.rt.nodes))
              && (m.Some? && key !in m.value ==>
                    ts.rt.nodes == Retained(WithData(old(ts.rt.nodes), obj.value, MapData(m.value[key := value.obj])), value.obj))
              && (m.Some? && obj.value in ts.rt.nodes ==> MapEntries(ts.rt.nodes, obj) == Some(m.value[key := value.obj]))
              && (m.Some? && key in m.value && !Frees(old(ts.rt.nodes), old(ts.rt.tearingDown), m.value[key]) ==>
                    && ts.rt.nodes == Retained(WithData(Released(old(ts.rt.nodes), m.value[key]), obj.value,
                                                        MapData(m.value[key := value.obj])), value.obj)
                    && ts.rt.destructorCalls == old(ts.rt.destructorCalls))
    {
      if obj.None? {
        return;
      }
      var m := MapEntries(ts.rt.nodes, obj);
      if m.None? {
        return;  // a payload that is not a Map_Data is undefined behaviour
      }
      if key !in m.value {
        var _ := Insert(ts, key, value);
        return;
      }
      Replace(ts.rt, obj.value, m.value, key, value.obj);
    }

    /**
     * erase(key) on a map handle: nothing for a null handle or an absent key;
     * otherwise the stored value is released once and the entry removed.
     */
    method Erase(ts: TypeSystem, key: string)
      requires ts.Valid()
      requires obj.Some? ==> obj.value in ts.rt.nodes && TypeOf(ts.rt.nodes, ts.rt.typeKey, obj.value) == ts.mapType
      modifies ts.rt
      ensures AfterRelease(ts.rt)
      ensures var m := old(MapEntries(ts.rt.nodes, obj));
              && (m.None? || key !in m.value ==> ts.rt.nodes == old(ts.rt.nodes) && ts.rt.destructorCalls == old(ts.rt.destructorCalls))
              && (m.Some? && key in m.value && obj.value in ts.rt.nodes ==>
                    MapEntries(ts.rt.nodes, obj) == Some(m.value - {key}) && Lookup(ts.rt.nodes, obj, key).None?)
              && (m.Some? && key in m.value && !Frees(old(ts.rt.nodes), old(ts.rt.tearingDown), m.value[key]) ==>
                    && ts.rt.nodes == WithData(Released(old(ts.rt.nodes), m.value[key]), obj.value, MapData(m.value - {key}))
                    && ts.rt.destructorCalls == old(ts.rt.destructorCalls))
    {
      if obj.None? {
        return;
      }
      var m := MapEntries(ts.rt.nodes, obj);
      if m.None? || key !in m.value {
        return;
      }
      var id := obj.value;
      ts.rt.DecRef(m.value[key]);
      if id !in ts.rt.nodes {
        return;  // the map went with its value: erasing from it is undefined behaviour
      }
      ts.rt.SetPayload(id, MapData(m.value - {key}), ts.rt.nodes[id].dataSize);
    }

    /** get(index) on an array handle: a handle on the element, which it counts; null out of range. */
    method GetAt(ts: TypeSystem, index: nat) returns (r: Handle)
      requires ts.Valid()
      requires obj.Some? ==> obj.value in ts.rt.nodes && TypeOf(ts.rt.nodes, ts.rt.typeKey, obj.value) == ts.arrayType
      modifies ts.rt
      ensures fresh(r)
      ensures var v := old(VectorItems(ts.rt.nodes, obj));
              r.obj == if v.Some? && index < |v.value| then v.value[index] else None
      ensures Steady(ts.rt) && ts.rt.nodes == Retained(old(ts.rt.nodes), r.obj)
      ensures VectorItems(ts.rt.nodes, obj) == old(VectorItems(ts.rt.nodes, obj))
    {
      if obj.None? {
        r := new Handle.Null();
        return;
      }
      var v := VectorItems(ts.rt.nodes, obj);
      if v.None? || index >= |v.value| {
        r := new Handle.Null();
        return;
      }
      r := new Handle.FromPtr(ts.rt, v.value[index]);
    }

    /**
     * set(index, value) on an array handle: nothing out of range; otherwise
     * the old element is released once, replaced, and the new one counted once.
     */
    method SetAt(ts: TypeSystem, index: nat, value: Handle)
      requires ts.Valid()
      requires obj.Some? ==> obj.value in ts.rt.nodes && TypeOf(ts.rt.nodes, ts.rt.typeKey, obj.value) == ts.arrayType
      modifies ts.rt
      ensures AfterRelease(ts.rt)
      ensures var v := old(VectorItems(ts.rt.nodes, obj));
              && (v.None? || index >= |v.value| ==> ts.rt.nodes == old(ts.rt.nodes) && ts.rt.destructorCalls == old(ts.rt.destructorCalls))
              && (v.Some? && index < |v.value| && obj.value in ts.rt.nodes ==>
                    VectorItems(ts.rt.nodes, obj) == Some(v.value[index := value.obj]))
              && (v.Some? && index < |v.value| && !Frees(old(ts.rt.nodes), old(ts.rt.tearingDown), v.value[index]) ==>
                    && ts.rt.nodes == Retained(WithData(Released(old(ts.rt.nodes), v.value[index]), obj.value,
                                                        VectorData(v.value[index := value.obj])), value.obj)
                    && ts.rt.destructorCalls == old(ts.rt.destructorCalls))
    {
      if obj.None? {
        return;
      }
      var v := VectorItems(ts.rt.nodes, obj);
      if v.None? || index >= |v.value| {
        return;  // a payload that is not a Vector_Data is undefined behaviour
      }
      ReplaceAt(ts.rt, obj.value, v.value, index, value.obj);
    }

    /** push_back(value) on an array handle: the value goes at the end and is counted once. */
    method PushBack(ts: TypeSystem, value: Handle)
      requires ts.Valid()
      requires obj.Some? ==> obj.value in ts.rt.nodes && TypeOf(ts.rt.nodes, ts.rt.typeKey, obj.value) == ts.arrayType
      modifies ts.rt
      ensures Steady(ts.rt)
      ensures var v := old(VectorItems(ts.rt.nodes, obj));
              && (v.None? ==> ts.rt.nodes == old(ts.rt.nodes))
              && (v.Some? ==>
                    && ts.rt.nodes == Retained(WithData(old(ts.rt.nodes), obj.value, VectorData(v.value + [value.obj])), value.obj)
                    && VectorItems(ts.rt.nodes, obj) == Some(v.value + [value.obj]))
    {
      if obj.None? {
        return;
      }
      var v := VectorItems(ts.rt.nodes, obj);
      if v.None? {
        return;  // a payload that is not a Vector_Data is undefined behaviour
      }
      ts.rt.SetPayload(obj.value, VectorData(v.value + [value.obj]), ts.rt.nodes[obj.value].dataSize);
      ts.rt.IncRef(value.obj);
    }

    /**
     * erase(index) on an array handle: nothing out of range; otherwise the
     * element is released once and removed, the later ones moving down.
     */
    method EraseAt(ts: TypeSystem, index: nat)
      requires ts.Valid()
      requires obj.Some? ==> obj.value in ts.rt.nodes && TypeOf(ts.rt.nodes, ts.rt.typeKey, obj.value) == ts.arrayType
      modifies ts.rt
      ensures AfterRelease(ts.rt)
      ensures var v := old(VectorItems(ts.rt.nodes, obj));
              && (v.None? || index >= |v.value| ==> ts.rt.nodes == old(ts.rt.nodes) && ts.rt.destructorCalls == old(ts.rt.destructorCalls))
              && (v.Some? && index < |v.value| && obj.value in ts.rt.nodes ==>
                    VectorItems(ts.rt.nodes, obj) == Some(RemoveAt(v.value, index)))
              && (v.Some? && index < |v.value| && !Frees(old(ts.rt.nodes), old(ts.rt.tearingDown), v.value[index]) ==>
                    && ts.rt.nodes == WithData(Released(old(ts.rt.nodes), v.value[index]), obj.value, VectorData(RemoveAt(v.value, index)))
                    && ts.rt.destructorCalls == old(ts.rt.destructorCalls))
    {
      if obj.None? {
        return;
      }
      var v := VectorItems(ts.rt.nodes, obj);
      if v.None? || index >= |v.value| {
        return;
      }
      var id := obj.value;
      ts.rt.DecRef(v.value[index]);
      if id !in ts.rt.nodes {
        return;  // the array went with its element: erasing from it is undefined behaviour
      }
      ts.rt.SetPayload(id, VectorData(RemoveAt(v.value, index)), ts.rt.nodes[id].dataSize);
    }
  }
}
