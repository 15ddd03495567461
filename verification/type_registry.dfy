/**
 * The heap Easy_Object::type_register<T>(name) leaves: a new type map typed
 * by the map type, holding the type's name as a string node and its
 * destructor, entered in the types map and, the first time T is
 * registered, in type_db.
 */
module TypeRegistry {
  import opened Wrappers
  import opened Words
  import opened Char32String
  import opened AttrMap
  import opened ObjNode
  import opened ObjTree
  import opened Containers
  import opened TypeMaps

  /** The arguments of type_register<T> and the statics it reads. */
  datatype Registration = Registration(
    t: NativeType,        // T
    name: seq<Char32>,    // the char32_t name
    utf8Name: string,     // obj_str32_to_utf8(name)
    typeKey: Key,         // OBJ_TYPE_KEY
    nameKey: Key,         // type_name_key
    destructKey: Key,     // OBJ_DESTRUCT_FUNCTION_KEY
    mapType: Ptr,         // map_type_obj
    types: Ptr,           // types_obj
    counted: bool)        // T had no type_db entry yet

  /**
   * The string node obj_create_char32_string makes for the name, a copy of
   * it up to its terminator (NewNodeWithData: the layout obj_create chose is
   * overwritten), counted once by the type map's attribute.
   */
  function NameNode(name: seq<Char32>): Node
    requires Terminated(name, 0)
  {
    Node(EMPTY, None, Str(Copy(name, 0)), 0, 1)
  }

  /**
   * The destructor node: obj_create(sizeof(Closure_Data)) whose `data`
   * pointer is then overwritten with the lambda's address itself, counted
   * once by the type map's attribute.
   */
  function DestructorNode(t: NativeType): Node
  {
    Node(EMPTY, None, FunctionPointer(RegisteredDestructor(t)), 0, 1)
  }

  /**
   * The heap after the name and destructor nodes k and k + 1 are created
   * and attached to the type map m under the name key and the destructor key.
   */
  ghost predicate TypeInfoAttached(r: Heap, h: Heap, m: NodeId, k: NodeId, nameKey: Key, destructKey: Key,
                                   name: seq<Char32>, t: NativeType)
    requires AttrsValid(h) && m in h && Terminated(name, 0)
  {
    && (forall id {:trigger id in r} :: id in r <==> id in h || id == k || id == k + 1)
    && r[m] == h[m].(attrs := Add(Add(h[m].attrs, nameKey, k), destructKey, k + 1))
    && r[k] == NameNode(name)
    && r[k + 1] == DestructorNode(t)
    && forall id {:trigger r[id]} :: id in h && id != m ==> r[id] == h[id]
  }

  /** The steps as the runtime takes them, one heap after another: create both nodes, then attach each to m. */
  lemma InfoSteps(h: Heap, h0: Heap, h1: Heap, h2: Heap, r: Heap, m: NodeId, k: NodeId, nameKey: Key, destructKey: Key,
                  name: seq<Char32>, t: NativeType)
    requires AttrsValid(h) && m in h && k !in h && k + 1 !in h && Terminated(name, 0)
    requires h0 == h[k := Node(EMPTY, None, Str(Copy(name, 0)), 0, 0)]
    requires h1 == h0[k + 1 := Node(EMPTY, None, FunctionPointer(RegisteredDestructor(t)), 0, 0)]
    requires AttrsValid(h1) && h2 == Attached(h1, m, nameKey, k)
    requires k + 1 in h2 && r == Attached(h2, m, destructKey, k + 1)
    ensures TypeInfoAttached(r, h, m, k, nameKey, destructKey, name, t)
  {
    InfoStepDomain(h, h0, h1, h2, r, m, k, nameKey, destructKey, name, t);
    InfoStepOwner(h, h0, h1, h2, r, m, k, nameKey, destructKey, name, t);
    InfoStepNew(h, h0, h1, h2, r, m, k, nameKey, destructKey, name, t);
    InfoStepFrame(h, h0, h1, h2, r, m, k, nameKey, destructKey, name, t);
  }

  /** The type map gains both attributes; the heap gains the two new nodes. */
  lemma InfoStepOwner(h: Heap, h0: Heap, h1: Heap, h2: Heap, r: Heap, m: NodeId, k: NodeId, nameKey: Key, destructKey: Key,
                      name: seq<Char32>, t: NativeType)
    requires AttrsValid(h) && m in h && k !in h && k + 1 !in h && Terminated(name, 0)
    requires h0 == h[k := Node(EMPTY, None, Str(Copy(name, 0)), 0, 0)]
    requires h1 == h0[k + 1 := Node(EMPTY, None, FunctionPointer(RegisteredDestructor(t)), 0, 0)]
    requires AttrsValid(h1) && h2 == Attached(h1, m, nameKey, k)
    requires k + 1 in h2 && r == Attached(h2, m, destructKey, k + 1)
    ensures r[m] == h[m].(attrs := Add(Add(h[m].attrs, nameKey, k), destructKey, k + 1))
  {
    assert m != k && m != k + 1;
    assert h1[m] == h[m];
    assert h2[m] == h1[m].(attrs := Add(h1[m].attrs, nameKey, k));
  }

  /** The heap gains the two new nodes and nothing else. */
  lemma InfoStepDomain(h: Heap, h0: Heap, h1: Heap, h2: Heap, r: Heap, m: NodeId, k: NodeId, nameKey: Key, destructKey: Key,
                       name: seq<Char32>, t: NativeType)
    requires AttrsValid(h) && m in h && k !in h && k + 1 !in h && Terminated(name, 0)
    requires h0 == h[k := Node(EMPTY, None, Str(Copy(name, 0)), 0, 0)]
    requires h1 == h0[k + 1 := Node(EMPTY, None, FunctionPointer(RegisteredDestructor(t)), 0, 0)]
    requires AttrsValid(h1) && h2 == Attached(h1, m, nameKey, k)
    requires k + 1 in h2 && r == Attached(h2, m, destructKey, k + 1)
    ensures forall id :: id in r <==> id in h || id == k || id == k + 1
  {
    forall id
      ensures id in r <==> id in h || id == k || id == k + 1
    {
      assert id in r <==> id in h2;
      assert id in h2 <==> id in h1;
    }
  }

  /** The name node is counted by the first attachment only, the destructor node by the second only. */
  lemma InfoStepNew(h: Heap, h0: Heap, h1: Heap, h2: Heap, r: Heap, m: NodeId, k: NodeId, nameKey: Key, destructKey: Key,
                    name: seq<Char32>, t: NativeType)
    requires AttrsValid(h) && m in h && k !in h && k + 1 !in h && Terminated(name, 0)
    requires h0 == h[k := Node(EMPTY, None, Str(Copy(name, 0)), 0, 0)]
    requires h1 == h0[k + 1 := Node(EMPTY, None, FunctionPointer(RegisteredDestructor(t)), 0, 0)]
    requires AttrsValid(h1) && h2 == Attached(h1, m, nameKey, k)
    requires k + 1 in h2 && r == Attached(h2, m, destructKey, k + 1)
    ensures r[k] == NameNode(name) && r[k + 1] == DestructorNode(t)
  {
    assert m != k && m != k + 1;
    assert h1[k] == Node(EMPTY, None, Str(Copy(name, 0)), 0, 0);
    assert h2[k] == h1[k].(refCount := 1);
    assert h2[k + 1] == h1[k + 1];
  }

  /** Nodes other than m and the two new ones are left as they were. */
  lemma InfoStepFrame(h: Heap, h0: Heap, h1: Heap, h2: Heap, r: Heap, m: NodeId, k: NodeId, nameKey: Key, destructKey: Key,
                      name: seq<Char32>, t: NativeType)
    requires AttrsValid(h) && m in h && k !in h && k + 1 !in h && Terminated(name, 0)
    requires h0 == h[k := Node(EMPTY, None, Str(Copy(name, 0)), 0, 0)]
    requires h1 == h0[k + 1 := Node(EMPTY, None, FunctionPointer(RegisteredDestructor(t)), 0, 0)]
    requires AttrsValid(h1) && h2 == Attached(h1, m, nameKey, k)
    requires k + 1 in h2 && r == Attached(h2, m, destructKey, k + 1)
    ensures forall id {:trigger r[id]} :: id in h && id != m ==> r[id] == h[id]
  {
    AttachStep(h1, m, nameKey, k);
    AttachStep(h2, m, destructKey, k + 1);
    OthersKept(h, h0, h1, h2, r, m, k);
  }

  lemma OthersKept(h: Heap, h0: Heap, h1: Heap, h2: Heap, r: Heap, m: NodeId, k: NodeId)
    requires k !in h && k + 1 !in h && k in h0 && k + 1 in h1 && h0 == h[k := h0[k]] && h1 == h0[k + 1 := h1[k + 1]]
    requires forall id :: id in h1 && id != m && id != k ==> id in h2 && h2[id] == h1[id]
    requires forall id :: id in h2 && id != m && id != k + 1 ==> id in r && r[id] == h2[id]
    ensures forall id :: id in h && id != m ==> r[id] == h[id]
  {
    forall id | id in h && id != m
      ensures r[id] == h[id]
    {
      assert id != k && id != k + 1;
      assert id in h0 && h0[id] == h[id];
      assert id in h1 && h1[id] == h0[id];
    }
  }

  /** `types_obj.insert(utf8_name, type_map)` stores the entry: types is a live map without the name. */
  predicate Inserts(nodes: Heap, types: Ptr, key: string)
  {
    MapEntries(nodes, types).Some? && key !in MapEntries(nodes, types).value
  }

  /** The type map's attributes: its type (when the map type is live), then its name, then its destructor. */
  function RegisteredAttrs(before: Heap, m: NodeId, reg: Registration): HashMap
  {
    Add(Add(TypedNode(MapData(map[]), reg.typeKey, Live(before, reg.mapType), 1).attrs, reg.nameKey, m + 1),
        reg.destructKey, m + 2)
  }

  /**
   * The node type_register leaves at address id, from `before` with m as
   * the next fresh address: the type map m, counted by the handle returned,
   * by the types map when the name was new there, and by type_db when T
   * was; its name m + 1 and its destructor m + 2; of the older nodes, the
   * map type is counted once more and the types map gains the entry.
   */
  ghost function RegisteredNode(before: Heap, m: NodeId, reg: Registration, id: NodeId): Node
    requires Terminated(reg.name, 0) && (id in before || m <= id < m + 3)
  {
    var inserted := Inserts(before, reg.types, reg.utf8Name);
    if id == m then
      Node(RegisteredAttrs(before, m, reg), None, MapData(map[]), 0,
           1 + (if inserted then 1 else 0) + (if reg.counted then 1 else 0))
    else if id == m + 1 then NameNode(reg.name)
    else if id == m + 2 then DestructorNode(reg.t)
    else if inserted && Some(id) == reg.types then
      Retained(before, reg.mapType)[id].(data := MapData(EntriesOf(before, id)[reg.utf8Name := Some(m)]))
    else Retained(before, reg.mapType)[id]
  }

  /** The heap type_register has left: three new nodes, each as RegisteredNode says. */
  ghost predicate TypeRegistered(r: Heap, before: Heap, m: NodeId, reg: Registration)
    requires Terminated(reg.name, 0)
  {
    && (forall id {:trigger id in r} :: id in r <==> id in before || m <= id < m + 3)
    && forall id {:trigger r[id]} :: id in r ==> r[id] == RegisteredNode(before, m, reg, id)
  }

  /**
   * The heap once the type map m is made and its name and destructor are
   * attached: the map type counted once more, nothing else changed.
   */
  ghost predicate NamedMap(h: Heap, before: Heap, m: NodeId, reg: Registration)
    requires Terminated(reg.name, 0)
  {
    && (forall id {:trigger id in h} :: id in h <==> id in before || m <= id < m + 3)
    && h[m] == Node(RegisteredAttrs(before, m, reg), None, MapData(map[]), 0, 1)
    && h[m + 1] == NameNode(reg.name)
    && h[m + 2] == DestructorNode(reg.t)
    && forall id {:trigger h[id]} :: id in before ==> h[id] == Retained(before, reg.mapType)[id]
  }

  lemma NamedMapShape(before: Heap, h1: Heap, h: Heap, m: NodeId, reg: Registration)
    requires AttrsValid(before) && m !in before && m + 1 !in before && m + 2 !in before && Terminated(reg.name, 0)
    requires h1 == WithTypedNode(before, reg.typeKey, reg.mapType, m, MapData(map[]), 1)
    requires TypeInfoAttached(h, h1, m, m + 1, reg.nameKey, reg.destructKey, reg.name, reg.t)
    ensures NamedMap(h, before, m, reg)
  {
    assert h1[m] == TypedNode(MapData(map[]), reg.typeKey, Live(before, reg.mapType), 1);
    forall id | id in before
      ensures h[id] == Retained(before, reg.mapType)[id]
    {
      assert h[id] == h1[id];
    }
  }

  /** The heap after types_obj.insert({name, m}) and, when `counted`, the count type_db's copy of m takes. */
  function Entered(h: Heap, types: Ptr, name: string, m: NodeId, counted: bool): Heap
    requires AttrsValid(h)
  {
    var h3 := if Inserts(h, types, name)
              then Retained(WithData(h, types.value, MapData(MapEntries(h, types).value[name := Some(m)])), Some(m))
              else h;
    if counted then Retained(h3, Some(m)) else h3
  }

  /**
   * type_register's steps on the store, from the heap `before` whose
   * addresses are all below n: the typed map n (`typed`), its name and
   * destructor (`h`), then the types-map entry and type_db's count (`r`).
   */
  lemma RegisterSteps(before: Heap, n: NodeId, h: Heap, r: Heap, reg: Registration)
    requires AttrsValid(before) && (forall id :: id in before ==> id < n) && Terminated(reg.name, 0)
    requires reg.types.Some? ==> reg.types.value in before
    requires NamedMap(h, before, n, reg)
    requires AttrsValid(h) && r == Entered(h, reg.types, reg.utf8Name, n, reg.counted)
    ensures TypeRegistered(r, before, n, reg)
  {
    var h3 := if Inserts(h, reg.types, reg.utf8Name)
              then Retained(WithData(h, reg.types.value, MapData(MapEntries(h, reg.types).value[reg.utf8Name := Some(n)])), Some(n))
              else h;
    RegisterShape(before, h, h3, r, n, reg);
  }

  /**
   * The last steps: the entry in the types map when the name is new there,
   * and the count type_db takes when T is new; the result is the heap
   * TypeRegistered describes.
   */
  lemma RegisterShape(before: Heap, h: Heap, h3: Heap, r: Heap, m: NodeId, reg: Registration)
    requires AttrsValid(before) && AttrsValid(h) && Terminated(reg.name, 0) && NamedMap(h, before, m, reg)
    requires m !in before && m + 1 !in before && m + 2 !in before
    requires reg.types.Some? ==> reg.types.value in before
    requires Inserts(h, reg.types, reg.utf8Name) ==>
               h3 == Retained(WithData(h, reg.types.value, MapData(MapEntries(h, reg.types).value[reg.utf8Name := Some(m)])), Some(m))
    requires !Inserts(h, reg.types, reg.utf8Name) ==> h3 == h
    requires r == if reg.counted then Retained(h3, Some(m)) else h3
    ensures TypeRegistered(r, before, m, reg)
  {
    NamedMapEntries(h, before, m, reg);
    RegisterNew(before, h, h3, r, m, reg);
    forall id | id in r
      ensures r[id] == RegisteredNode(before, m, reg, id)
    {
      if id in before {
        RegisterOld(before, h, h3, r, m, reg, id);
      }
    }
  }

  /** Attaching the name and destructor leaves every map entry of the older nodes as it was. */
  lemma NamedMapEntries(h: Heap, before: Heap, m: NodeId, reg: Registration)
    requires Terminated(reg.name, 0) && NamedMap(h, before, m, reg)
    requires m !in before && m + 1 !in before && m + 2 !in before
    requires reg.types.Some? ==> reg.types.value in before
    ensures MapEntries(h, reg.types) == MapEntries(before, reg.types)
  {
    if reg.types.Some? {
      assert h[reg.types.value] == Retained(before, reg.mapType)[reg.types.value];
    }
  }

  lemma RegisterNew(before: Heap, h: Heap, h3: Heap, r: Heap, m: NodeId, reg: Registration)
    requires AttrsValid(before) && AttrsValid(h) && Terminated(reg.name, 0) && NamedMap(h, before, m, reg)
    requires m !in before && m + 1 !in before && m + 2 !in before
    requires reg.types.Some? ==> reg.types.value in before
    requires Inserts(h, reg.types, reg.utf8Name) ==>
               h3 == Retained(WithData(h, reg.types.value, MapData(MapEntries(h, reg.types).value[reg.utf8Name := Some(m)])), Some(m))
    requires !Inserts(h, reg.types, reg.utf8Name) ==> h3 == h
    requires r == if reg.counted then Retained(h3, Some(m)) else h3
    requires MapEntries(h, reg.types) == MapEntries(before, reg.types)
    ensures forall id :: id in r <==> id in before || m <= id < m + 3
    ensures r[m] == RegisteredNode(before, m, reg, m)
    ensures r[m + 1] == RegisteredNode(before, m, reg, m + 1)
    ensures r[m + 2] == RegisteredNode(before, m, reg, m + 2)
  {
    RegisterTypeMap(before, h, h3, r, m, reg);
    assert r[m + 1] == h3[m + 1] == h[m + 1];
    assert r[m + 2] == h3[m + 2] == h[m + 2];
  }

  /** The type map is counted by the handle, by the types map when the name was new, by type_db when T was. */
  lemma RegisterTypeMap(before: Heap, h: Heap, h3: Heap, r: Heap, m: NodeId, reg: Registration)
    requires AttrsValid(before) && AttrsValid(h) && Terminated(reg.name, 0) && NamedMap(h, before, m, reg)
    requires m !in before && m + 1 !in before && m + 2 !in before
    requires reg.types.Some? ==> reg.types.value in before
    requires Inserts(h, reg.types, reg.utf8Name) ==>
               h3 == Retained(WithData(h, reg.types.value, MapData(MapEntries(h, reg.types).value[reg.utf8Name := Some(m)])), Some(m))
    requires !Inserts(h, reg.types, reg.utf8Name) ==> h3 == h
    requires r == if reg.counted then Retained(h3, Some(m)) else h3
    requires MapEntries(h, reg.types) == MapEntries(before, reg.types)
    ensures r[m] == RegisteredNode(before, m, reg, m)
  {
    assert h3[m].refCount == if Inserts(h, reg.types, reg.utf8Name) then 2 else 1;
  }

  lemma RegisterOld(before: Heap, h: Heap, h3: Heap, r: Heap, m: NodeId, reg: Registration, id: NodeId)
    requires AttrsValid(before) && AttrsValid(h) && Terminated(reg.name, 0) && NamedMap(h, before, m, reg)
    requires m !in before && m + 1 !in before && m + 2 !in before
    requires reg.types.Some? ==> reg.types.value in before
    requires MapEntries(h, reg.types) == MapEntries(before, reg.types)
    requires Inserts(h, reg.types, reg.utf8Name) ==>
               h3 == Retained(WithData(h, reg.types.value, MapData(MapEntries(h, reg.types).value[reg.utf8Name := Some(m)])), Some(m))
    requires !Inserts(h, reg.types, reg.utf8Name) ==> h3 == h
    requires r == if reg.counted then Retained(h3, Some(m)) else h3
    requires id in before
    ensures id in r && r[id] == RegisteredNode(before, m, reg, id)
  {
    if Inserts(h, reg.types, reg.utf8Name) && Some(id) == reg.types {
      RegisterOldEntry(before, h, h3, r, m, reg, id);
    } else {
      RegisterOldOther(before, h, h3, r, m, reg, id);
    }
  }

  /** The types map gains the entry for the new type map. */
  lemma RegisterOldEntry(before: Heap, h: Heap, h3: Heap, r: Heap, m: NodeId, reg: Registration, id: NodeId)
    requires AttrsValid(before) && AttrsValid(h) && Terminated(reg.name, 0) && NamedMap(h, before, m, reg)
    requires m !in before && m + 1 !in before && m + 2 !in before
    requires reg.types.Some? ==> reg.types.value in before
    requires MapEntries(h, reg.types) == MapEntries(before, reg.types)
    requires Inserts(h, reg.types, reg.utf8Name) ==>
               h3 == Retained(WithData(h, reg.types.value, MapData(MapEntries(h, reg.types).value[reg.utf8Name := Some(m)])), Some(m))
    requires !Inserts(h, reg.types, reg.utf8Name) ==> h3 == h
    requires r == if reg.counted then Retained(h3, Some(m)) else h3
    requires id in before
    requires Inserts(h, reg.types, reg.utf8Name) && Some(id) == reg.types
    ensures id in r && r[id] == RegisteredNode(before, m, reg, id)
  {
    assert id != m && id != m + 1 && id != m + 2;
    assert h[id] == Retained(before, reg.mapType)[id];
    assert r[id] == h3[id];
    assert EntriesOf(before, id) == MapEntries(h, reg.types).value;
  }

  /** Every other older node keeps what it had once the map type was counted. */
  lemma RegisterOldOther(before: Heap, h: Heap, h3: Heap, r: Heap, m: NodeId, reg: Registration, id: NodeId)
    requires AttrsValid(before) && AttrsValid(h) && Terminated(reg.name, 0) && NamedMap(h, before, m, reg)
    requires m !in before && m + 1 !in before && m + 2 !in before
    requires reg.types.Some? ==> reg.types.value in before
    requires MapEntries(h, reg.types) == MapEntries(before, reg.types)
    requires Inserts(h, reg.types, reg.utf8Name) ==>
               h3 == Retained(WithData(h, reg.types.value, MapData(MapEntries(h, reg.types).value[reg.utf8Name := Some(m)])), Some(m))
    requires !Inserts(h, reg.types, reg.utf8Name) ==> h3 == h
    requires r == if reg.counted then Retained(h3, Some(m)) else h3
    requires id in before
    requires !(Inserts(h, reg.types, reg.utf8Name) && Some(id) == reg.types)
    ensures id in r && r[id] == RegisteredNode(before, m, reg, id)
  {
    assert id != m && id != m + 1 && id != m + 2;
    assert h[id] == Retained(before, reg.mapType)[id];
    assert r[id] == h3[id] == h[id];
  }
}
