/**
 * The heap Easy_Object::TypeSystemInit builds before it interns the type
 * name key: the root map, the `types` map, the map and array type maps and
 * their destructor closures, one stage per group of statements.
 */
module TypeMaps {
  import opened Wrappers
  import opened Words
  import opened AttrMap
  import opened ObjNode
  import opened ObjTree
  import opened Containers

  /** A new Map_Data node held by one static handle. */
  function StaticMap(): Node
  {
    Node(EMPTY, None, MapData(map[]), 0, 1)
  }

  /** A Closure_Data node of obj_create(sizeof(Closure_Data)) whose `func` is set, not yet counted. */
  function ClosureNode(f: Function): Node
  {
    Node(EMPTY, None, Closure(f), 0, 0)
  }

  /** The heap after obj_add_attr(owner, key, value): owner gets the attribute, value one more count. */
  function Attached(h: Heap, owner: NodeId, key: Key, value: NodeId): (r: Heap)
    requires AttrsValid(h) && owner in h && value in h
    ensures AttrsValid(r) && r.Keys == h.Keys
  {
    Retained(WithAttr(h, owner, key, value), Some(value))
  }

  /**
   * root_obj and types_obj: two new maps; the root map holds "types", and
   * the types map holds the string type under "char32_string".
   */
  function RootHeap(before: Heap, n: NodeId, stringType: Ptr): (h: Heap)
    requires AttrsValid(before) && n !in before && n + 1 !in before
    ensures AttrsValid(h) && h.Keys == before.Keys + {n, n + 1}
  {
    var h1 := before[n := StaticMap()][n + 1 := StaticMap()];
    var h2 := InsertEntry(h1, n, "types", Some(n + 1));
    InsertEntry(h2, n + 1, "char32_string", stringType)
  }

  /**
   * map_type_obj: a new map that is its own type, entered under "map" in
   * the types map with an extra count.
   */
  function SelfTypedMap(h: Heap, n: NodeId, typeKey: Key): (r: Heap)
    requires AttrsValid(h) && n + 1 in h && n + 2 !in h
    ensures AttrsValid(r) && r.Keys == h.Keys + {n + 2}
  {
    var m := Some(n + 2);
    var h1 := h[n + 2 := StaticMap()];
    var h2 := Attached(h1, n + 2, typeKey, n + 2);
    Retained(InsertEntry(h2, n + 1, "map", m), m)
  }

  /** The map type becomes the type of the types map and then of the root map. */
  function TypedByMapType(h: Heap, n: NodeId, typeKey: Key): (r: Heap)
    requires AttrsValid(h) && n in h && n + 1 in h && n + 2 in h
    ensures AttrsValid(r) && r.Keys == h.Keys
  {
    var m := Some(n + 2);
    var h1 := Attached(h, n + 1, typeKey, n + 2);
    Attached(h1, n, typeKey, n + 2)
  }

  /** The map type's stage of TypeSystemInit. */
  function MapTypeHeap(h: Heap, n: NodeId, typeKey: Key): (r: Heap)
    requires AttrsValid(h) && n in h && n + 1 in h && n + 2 !in h
    ensures AttrsValid(r) && r.Keys == h.Keys + {n + 2}
  {
    TypedByMapType(SelfTypedMap(h, n, typeKey), n, typeKey)
  }

  /** array_type_obj: a map made by make_map, so typed as a map, and entered under "array". */
  function ArrayTypeHeap(h: Heap, n: NodeId, typeKey: Key): (r: Heap)
    requires AttrsValid(h) && n + 1 in h && n + 2 in h && n + 3 !in h
    ensures AttrsValid(r) && r.Keys == h.Keys + {n + 3}
  {
    var h1 := WithTypedNode(h, typeKey, Some(n + 2), n + 3, MapData(map[]), 1);
    InsertEntry(h1, n + 1, "array", Some(n + 3))
  }

  /**
   * The destructor closures: destruct_map is attached to the map type, and
   * again, in place of destruct_array, to the array type.
   */
  function DestructorsHeap(h: Heap, n: NodeId, destructKey: Key): (r: Heap)
    requires AttrsValid(h) && n + 2 in h && n + 3 in h && n + 4 !in h && n + 5 !in h
    ensures AttrsValid(r) && r.Keys == h.Keys + {n + 4, n + 5}
  {
    var h1 := WithClosure(h, n + 4, DestructMap);
    var h2 := Attached(h1, n + 2, destructKey, n + 4);
    var h3 := WithClosure(h2, n + 5, DestructArray);
    UnionOfTwo(h.Keys, n + 4, n + 5);
    Attached(h3, n + 3, destructKey, n + 4)
  }

  /**
   * What the destructor stages leave on the array type: its destructor
   * attribute holds the destruct_map closure, and the destruct_array closure
   * is counted by nothing.
   */
  lemma ArrayTypeGetsDestructMap(h: Heap, n: NodeId, destructKey: Key)
    requires AttrsValid(h) && n + 2 in h && n + 3 in h && n + 4 !in h && n + 5 !in h
    requires Get(h[n + 3].attrs, destructKey).None?
    ensures var r := DestructorsHeap(h, n, destructKey);
            && Get(r[n + 3].attrs, destructKey) == Some(n + 4)
            && DataPointer(r, n + 4) == Some(Closure(DestructMap))
            && r[n + 5].refCount == 0
  {
    DestructorsShape(h, n, destructKey);
    GetAfterAdd(h[n + 3].attrs, destructKey, n + 4, destructKey);
  }

  /**
   * The destructor closures as the stages evidently mean them: destruct_map
   * attached to the map type and destruct_array to the array type.
   */
  function DestructorsHeapIntended(h: Heap, n: NodeId, destructKey: Key): (r: Heap)
    requires AttrsValid(h) && n + 2 in h && n + 3 in h && n + 4 !in h && n + 5 !in h
    ensures AttrsValid(r) && r.Keys == h.Keys + {n + 4, n + 5}
  {
    var h1 := WithClosure(h, n + 4, DestructMap);
    var h2 := Attached(h1, n + 2, destructKey, n + 4);
    var h3 := WithClosure(h2, n + 5, DestructArray);
    UnionOfTwo(h.Keys, n + 4, n + 5);
    Attached(h3, n + 3, destructKey, n + 5)
  }

  /**
   * With the intended stages each container type resolves its own
   * destructor, and each closure is counted once, by the type holding it.
   */
  lemma IntendedTypesGetOwnDestructors(h: Heap, n: NodeId, destructKey: Key)
    requires AttrsValid(h) && n + 2 in h && n + 3 in h && n + 4 !in h && n + 5 !in h
    requires Get(h[n + 2].attrs, destructKey).None? && Get(h[n + 3].attrs, destructKey).None?
    ensures var r := DestructorsHeapIntended(h, n, destructKey);
            && Get(r[n + 2].attrs, destructKey) == Some(n + 4)
            && DataPointer(r, n + 4) == Some(Closure(DestructMap)) && r[n + 4].refCount == 1
            && Get(r[n + 3].attrs, destructKey) == Some(n + 5)
            && DataPointer(r, n + 5) == Some(Closure(DestructArray)) && r[n + 5].refCount == 1
  {
    var h1 := WithClosure(h, n + 4, DestructMap);
    var h2 := Attached(h1, n + 2, destructKey, n + 4);
    var h3 := WithClosure(h2, n + 5, DestructArray);
    AttachStep(h1, n + 2, destructKey, n + 4);
    AttachStep(h3, n + 3, destructKey, n + 5);
    GetAfterAdd(h[n + 2].attrs, destructKey, n + 4, destructKey);
    GetAfterAdd(h[n + 3].attrs, destructKey, n + 5, destructKey);
  }

  lemma UnionOfTwo(a: set<NodeId>, x: NodeId, y: NodeId)
    ensures a + {x} + {y} == a + {x, y}
  {
  }

  /** The heap with a new, uncounted closure node. */
  function WithClosure(h: Heap, id: NodeId, f: Function): (r: Heap)
    requires AttrsValid(h) && id !in h
    ensures AttrsValid(r) && r.Keys == h.Keys + {id}
  {
    h[id := ClosureNode(f)]
  }

  /** The root map holds "types"; the types map holds the string type, counted once more. */
  ghost predicate RootMade(h: Heap, before: Heap, n: NodeId, stringType: Ptr)
  {
    && h.Keys == before.Keys + {n, n + 1}
    && h[n] == Node(EMPTY, None, MapData(map["types" := Some(n + 1)]), 0, 1)
    && h[n + 1] == Node(EMPTY, None, MapData(map["char32_string" := stringType]), 0, 2)
    && forall id {:trigger h[id]} :: id in before ==> h[id] == Retained(before, stringType)[id]
  }

  lemma RootShape(before: Heap, n: NodeId, stringType: Ptr)
    requires AttrsValid(before) && n !in before && n + 1 !in before
    requires stringType.None? || stringType.value in before
    ensures RootMade(RootHeap(before, n, stringType), before, n, stringType)
  {
    RootNodes(before, n, stringType);
    RootFrame(before, n, stringType);
  }

  lemma RootNodes(before: Heap, n: NodeId, stringType: Ptr)
    requires AttrsValid(before) && n !in before && n + 1 !in before
    requires stringType.None? || stringType.value in before
    ensures var h := RootHeap(before, n, stringType);
            && h[n] == Node(EMPTY, None, MapData(map["types" := Some(n + 1)]), 0, 1)
            && h[n + 1] == Node(EMPTY, None, MapData(map["char32_string" := stringType]), 0, 2)
  {
  }

  lemma RootFrame(before: Heap, n: NodeId, stringType: Ptr)
    requires AttrsValid(before) && n !in before && n + 1 !in before
    requires stringType.None? || stringType.value in before
    ensures var h := RootHeap(before, n, stringType);
            forall id {:trigger h[id]} :: id in before ==> h[id] == Retained(before, stringType)[id]
  {
  }

  /**
   * The map type is counted six times: by its own static handle, by itself
   * as its type, twice by the types map entry, and as the type of the root
   * and types maps.
   */
  ghost predicate MapTypeMade(r: Heap, h: Heap, n: NodeId, typeKey: Key)
    requires AttrsValid(h) && n in h && n + 1 in h
  {
    && r.Keys == h.Keys + {n + 2}
    && r[n + 2] == Node(Add(EMPTY, typeKey, n + 2), None, MapData(map[]), 0, 6)
    && r[n + 1] == h[n + 1].(attrs := Add(h[n + 1].attrs, typeKey, n + 2),
                             data := MapData(EntriesOf(h, n + 1)["map" := Some(n + 2)]))
    && r[n] == h[n].(attrs := Add(h[n].attrs, typeKey, n + 2))
    && forall id {:trigger r[id]} :: id in h && id != n && id != n + 1 ==> r[id] == h[id]
  }

  lemma SelfTypedShape(h: Heap, n: NodeId, typeKey: Key)
    requires AttrsValid(h) && n + 1 in h && n + 2 !in h
    ensures var r := SelfTypedMap(h, n, typeKey);
            && r[n + 2] == Node(Add(EMPTY, typeKey, n + 2), None, MapData(map[]), 0, 4)
            && r[n + 1] == h[n + 1].(data := MapData(EntriesOf(h, n + 1)["map" := Some(n + 2)]))
            && forall id {:trigger r[id]} :: id in h && id != n + 1 ==> r[id] == h[id]
  {
    var m := Some(n + 2);
    var h1 := h[n + 2 := StaticMap()];
    AttachStep(h1, n + 2, typeKey, n + 2);
    var h2 := Attached(h1, n + 2, typeKey, n + 2);
    assert h2[n + 2] == Node(Add(EMPTY, typeKey, n + 2), None, MapData(map[]), 0, 2);
    InsertStep(h2, n + 1, "map", m);
    var h3 := InsertEntry(h2, n + 1, "map", m);
    assert h3[n + 2] == Node(Add(EMPTY, typeKey, n + 2), None, MapData(map[]), 0, 3);
    var r := Retained(h3, m);
    forall id | id in h && id != n + 1
      ensures r[id] == h[id]
    {
      assert id != n + 2 && h3[id] == h[id];
    }
  }

  lemma TypedByMapTypeShape(h: Heap, n: NodeId, typeKey: Key)
    requires AttrsValid(h) && n in h && n + 1 in h && n + 2 in h
    ensures var r := TypedByMapType(h, n, typeKey);
            && r[n + 2] == h[n + 2].(refCount := WrapInc(WrapInc(h[n + 2].refCount)))
            && r[n + 1] == h[n + 1].(attrs := Add(h[n + 1].attrs, typeKey, n + 2))
            && r[n] == h[n].(attrs := Add(h[n].attrs, typeKey, n + 2))
            && forall id {:trigger r[id]} :: id in h && id != n && id != n + 1 && id != n + 2 ==> r[id] == h[id]
  {
    AttachStep(h, n + 1, typeKey, n + 2);
    AttachStep(Attached(h, n + 1, typeKey, n + 2), n, typeKey, n + 2);
  }

  lemma MapTypeShape(h: Heap, n: NodeId, typeKey: Key)
    requires AttrsValid(h) && n in h && n + 1 in h && n + 2 !in h
    ensures MapTypeMade(MapTypeHeap(h, n, typeKey), h, n, typeKey)
  {
    MapTypeNodes(h, n, typeKey);
    MapTypeFrame(h, n, typeKey);
  }

  lemma MapTypeNodes(h: Heap, n: NodeId, typeKey: Key)
    requires AttrsValid(h) && n in h && n + 1 in h && n + 2 !in h
    ensures var r := MapTypeHeap(h, n, typeKey);
            && r[n + 2] == Node(Add(EMPTY, typeKey, n + 2), None, MapData(map[]), 0, 6)
            && r[n + 1] == h[n + 1].(attrs := Add(h[n + 1].attrs, typeKey, n + 2),
                                     data := MapData(EntriesOf(h, n + 1)["map" := Some(n + 2)]))
            && r[n] == h[n].(attrs := Add(h[n].attrs, typeKey, n + 2))
  {
    assert WrapInc(WrapInc(4)) == 6;
    SelfTypedShape(h, n, typeKey);
    TypedByMapTypeShape(SelfTypedMap(h, n, typeKey), n, typeKey);
  }

  lemma MapTypeFrame(h: Heap, n: NodeId, typeKey: Key)
    requires AttrsValid(h) && n in h && n + 1 in h && n + 2 !in h
    ensures var r := MapTypeHeap(h, n, typeKey);
            forall id {:trigger r[id]} :: id in h && id != n && id != n + 1 ==> r[id] == h[id]
  {
    var mid := SelfTypedMap(h, n, typeKey);
    SelfTypedFrame(h, n, typeKey);
    TypedByMapTypeFrame(mid, n, typeKey);
    FrameCompose(h, mid, TypedByMapType(mid, n, typeKey), n);
  }

  lemma FrameCompose(h: Heap, mid: Heap, r: Heap, n: NodeId)
    requires n + 2 !in h && mid.Keys == h.Keys + {n + 2} && r.Keys == mid.Keys
    requires forall id {:trigger mid[id]} :: id in h && id != n + 1 ==> mid[id] == h[id]
    requires forall id {:trigger r[id]} :: id in mid && id != n && id != n + 1 && id != n + 2 ==> r[id] == mid[id]
    ensures forall id {:trigger r[id]} :: id in h && id != n && id != n + 1 ==> r[id] == h[id]
  {
    forall id | id in h && id != n && id != n + 1
      ensures r[id] == h[id]
    {
      assert id in mid && id != n + 2;
    }
  }

  lemma SelfTypedFrame(h: Heap, n: NodeId, typeKey: Key)
    requires AttrsValid(h) && n + 1 in h && n + 2 !in h
    ensures var r := SelfTypedMap(h, n, typeKey);
            forall id {:trigger r[id]} :: id in h && id != n + 1 ==> r[id] == h[id]
  {
    SelfTypedShape(h, n, typeKey);
  }

  lemma TypedByMapTypeFrame(h: Heap, n: NodeId, typeKey: Key)
    requires AttrsValid(h) && n in h && n + 1 in h && n + 2 in h
    ensures var r := TypedByMapType(h, n, typeKey);
            forall id {:trigger r[id]} :: id in h && id != n && id != n + 1 && id != n + 2 ==> r[id] == h[id]
  {
    TypedByMapTypeShape(h, n, typeKey);
  }

  /** The array type is a map typed by the map type, held by its static handle and the types map. */
  ghost predicate ArrayTypeMade(r: Heap, h: Heap, n: NodeId, typeKey: Key)
    requires n + 1 in h && n + 2 in h
  {
    && r.Keys == h.Keys + {n + 3}
    && r[n + 3] == Node(Add(EMPTY, typeKey, n + 2), None, MapData(map[]), 0, 2)
    && r[n + 2] == h[n + 2].(refCount := WrapInc(h[n + 2].refCount))
    && r[n + 1] == h[n + 1].(data := MapData(EntriesOf(h, n + 1)["array" := Some(n + 3)]))
    && forall id {:trigger r[id]} :: id in h && id != n + 1 && id != n + 2 ==> r[id] == h[id]
  }

  lemma ArrayTypeShape(h: Heap, n: NodeId, typeKey: Key)
    requires AttrsValid(h) && n + 1 in h && n + 2 in h && n + 3 !in h
    ensures ArrayTypeMade(ArrayTypeHeap(h, n, typeKey), h, n, typeKey)
  {
  }

  /** destruct_map is counted by both types; destruct_array by nothing. */
  ghost predicate DestructorsMade(r: Heap, h: Heap, n: NodeId, destructKey: Key)
    requires AttrsValid(h) && n + 2 in h && n + 3 in h
  {
    && r.Keys == h.Keys + {n + 4, n + 5}
    && r[n + 4] == Node(EMPTY, None, Closure(DestructMap), 0, 2)
    && r[n + 5] == Node(EMPTY, None, Closure(DestructArray), 0, 0)
    && r[n + 2] == h[n + 2].(attrs := Add(h[n + 2].attrs, destructKey, n + 4))
    && r[n + 3] == h[n + 3].(attrs := Add(h[n + 3].attrs, destructKey, n + 4))
    && forall id {:trigger r[id]} :: id in h && id != n + 2 && id != n + 3 ==> r[id] == h[id]
  }

  lemma DestructorsShape(h: Heap, n: NodeId, destructKey: Key)
    requires AttrsValid(h) && n + 2 in h && n + 3 in h && n + 4 !in h && n + 5 !in h
    ensures DestructorsMade(DestructorsHeap(h, n, destructKey), h, n, destructKey)
  {
    DestructorNodes(h, n, destructKey);
    DestructorOwners(h, n, destructKey);
    DestructorsFrame(h, n, destructKey);
  }

  lemma DestructorNodes(h: Heap, n: NodeId, destructKey: Key)
    requires AttrsValid(h) && n + 2 in h && n + 3 in h && n + 4 !in h && n + 5 !in h
    ensures var r := DestructorsHeap(h, n, destructKey);
            && r[n + 4] == Node(EMPTY, None, Closure(DestructMap), 0, 2)
            && r[n + 5] == Node(EMPTY, None, Closure(DestructArray), 0, 0)
  {
  }

  lemma DestructorOwners(h: Heap, n: NodeId, destructKey: Key)
    requires AttrsValid(h) && n + 2 in h && n + 3 in h && n + 4 !in h && n + 5 !in h
    ensures var r := DestructorsHeap(h, n, destructKey);
            && r[n + 2] == h[n + 2].(attrs := Add(h[n + 2].attrs, destructKey, n + 4))
            && r[n + 3] == h[n + 3].(attrs := Add(h[n + 3].attrs, destructKey, n + 4))
  {
  }

  lemma DestructorsFrame(h: Heap, n: NodeId, destructKey: Key)
    requires AttrsValid(h) && n + 2 in h && n + 3 in h && n + 4 !in h && n + 5 !in h
    ensures var r := DestructorsHeap(h, n, destructKey);
            forall id {:trigger r[id]} :: id in h && id != n + 2 && id != n + 3 ==> r[id] == h[id]
  {
  }

  /** One obj_add_attr(owner, key, value): owner gets the attribute, value one more count. */
  lemma AttachStep(h: Heap, owner: NodeId, key: Key, value: NodeId)
    requires AttrsValid(h) && owner in h && value in h
    ensures var r := Attached(h, owner, key, value);
            && r.Keys == h.Keys
            && (owner == value ==> r[owner] == h[owner].(attrs := Add(h[owner].attrs, key, value),
                                                         refCount := WrapInc(h[owner].refCount)))
            && (owner != value ==> r[owner] == h[owner].(attrs := Add(h[owner].attrs, key, value))
                                   && r[value] == h[value].(refCount := WrapInc(h[value].refCount)))
            && forall id {:trigger r[id]} :: id in h && id != owner && id != value ==> r[id] == h[id]
  {
  }

  /** One insert into node id's map followed by obj_inc_ref of the value. */
  lemma InsertStep(h: Heap, id: NodeId, key: string, v: Ptr)
    requires AttrsValid(h) && id in h && v.Some? && v.value in h && v.value != id
    ensures var r := InsertEntry(h, id, key, v);
            && r.Keys == h.Keys
            && r[id] == h[id].(data := MapData(EntriesOf(h, id)[key := v]))
            && r[v.value] == h[v.value].(refCount := WrapInc(h[v.value].refCount))
            && forall x :: x in h && x != id && x != v.value ==> r[x] == h[x]
  {
  }

  /** The two container types' attributes: the map type as their type, destruct_map as their destructor. */
  function ContainerTypeAttrs(n: NodeId, typeKey: Key, destructKey: Key): HashMap
  {
    Add(Add(EMPTY, typeKey, n + 2), destructKey, n + 4)
  }

  /**
   * The node TypeSystemInit leaves at address id once the destructors are
   * attached, from `before` with `n` as the next fresh address: root map n,
   * types map n + 1, map type n + 2, array type n + 3 and the destruct_map
   * and destruct_array closures n + 4 and n + 5, with the counts the
   * statements leave; of the older nodes only the string type changes,
   * counted once more.
   */
  ghost function BuiltNode(before: Heap, n: NodeId, typeKey: Key, destructKey: Key, stringType: Ptr, id: NodeId): Node
    requires id in before || n <= id < n + 6
  {
    if id == n then Node(Add(EMPTY, typeKey, n + 2), None, MapData(map["types" := Some(n + 1)]), 0, 1)
    else if id == n + 1 then
      Node(Add(EMPTY, typeKey, n + 2), None,
           MapData(map["char32_string" := stringType, "map" := Some(n + 2), "array" := Some(n + 3)]), 0, 2)
    else if id == n + 2 then Node(ContainerTypeAttrs(n, typeKey, destructKey), None, MapData(map[]), 0, 7)
    else if id == n + 3 then Node(ContainerTypeAttrs(n, typeKey, destructKey), None, MapData(map[]), 0, 2)
    else if id == n + 4 then Node(EMPTY, None, Closure(DestructMap), 0, 2)
    else if id == n + 5 then Node(EMPTY, None, Closure(DestructArray), 0, 0)
    else Retained(before, stringType)[id]
  }

  /** The heap TypeSystemInit has built once the destructors are attached: six new nodes, each as BuiltNode says. */
  ghost predicate TypeMapsMade(h: Heap, before: Heap, n: NodeId, typeKey: Key, destructKey: Key, stringType: Ptr)
  {
    && (forall id {:trigger id in h} :: id in h <==> id in before || n <= id < n + 6)
    && forall id {:trigger h[id]} :: id in h ==> h[id] == BuiltNode(before, n, typeKey, destructKey, stringType, id)
  }

  /** After the first stage the types map holds "char32_string" only. */
  lemma RootEntries(h: Heap, before: Heap, n: NodeId, stringType: Ptr)
    requires RootMade(h, before, n, stringType)
    ensures n + 1 in h && h[n + 1].data.MapData? && "map" !in EntriesOf(h, n + 1)
  {
    assert EntriesOf(h, n + 1) == map["char32_string" := stringType];
  }

  /** After the map type's stage the types map holds "char32_string" and "map" only. */
  lemma MapTypeEntries(r: Heap, h: Heap, before: Heap, n: NodeId, typeKey: Key, stringType: Ptr)
    requires RootMade(h, before, n, stringType) && AttrsValid(h) && MapTypeMade(r, h, n, typeKey)
    ensures n + 1 in r && n + 2 in r && r[n + 1].data.MapData? && "array" !in EntriesOf(r, n + 1)
  {
    assert EntriesOf(h, n + 1) == map["char32_string" := stringType];
    assert EntriesOf(r, n + 1) == map["char32_string" := stringType, "map" := Some(n + 2)];
  }

  lemma KeysChain(a: set<NodeId>, n: NodeId)
    ensures a + {n, n + 1} + {n + 2} + {n + 3} + {n + 4, n + 5} == a + {n, n + 1, n + 2, n + 3, n + 4, n + 5}
  {
  }

  /**
   * The stages of TypeSystemInit, from `before` with `n` as the next fresh
   * address: h1 after the root and types maps, h2 after the map type, h3
   * after the array type, h after the destructors.
   */
  ghost predicate Staged(before: Heap, h1: Heap, h2: Heap, h3: Heap, h: Heap, n: NodeId,
                         typeKey: Key, destructKey: Key, stringType: Ptr)
  {
    && n !in before && n + 1 !in before && n + 2 !in before
    && n + 3 !in before && n + 4 !in before && n + 5 !in before
    && RootMade(h1, before, n, stringType)
    && AttrsValid(h1) && AttrsValid(h3)
    && MapTypeMade(h2, h1, n, typeKey)
    && ArrayTypeMade(h3, h2, n, typeKey)
    && DestructorsMade(h, h3, n, destructKey)
  }

  lemma StagedKeys(before: Heap, h1: Heap, h2: Heap, h3: Heap, h: Heap, n: NodeId,
                   typeKey: Key, destructKey: Key, stringType: Ptr)
    requires Staged(before, h1, h2, h3, h, n, typeKey, destructKey, stringType)
    ensures h.Keys == before.Keys + {n, n + 1, n + 2, n + 3, n + 4, n + 5}
  {
    KeysChain(before.Keys, n);
  }

  lemma FrameChain(before: Heap, h1: Heap, h2: Heap, h3: Heap, h: Heap, n: NodeId, stringType: Ptr)
    requires n !in before && n + 1 !in before && n + 2 !in before && n + 3 !in before
    requires h1.Keys == before.Keys + {n, n + 1} && h2.Keys == h1.Keys + {n + 2} && h3.Keys == h2.Keys + {n + 3}
    requires h.Keys == h3.Keys + {n + 4, n + 5}
    requires forall id {:trigger h1[id]} :: id in before ==> h1[id] == Retained(before, stringType)[id]
    requires forall id {:trigger h2[id]} :: id in h1 && id != n && id != n + 1 ==> h2[id] == h1[id]
    requires forall id {:trigger h3[id]} :: id in h2 && id != n + 1 && id != n + 2 ==> h3[id] == h2[id]
    requires forall id {:trigger h[id]} :: id in h3 && id != n + 2 && id != n + 3 ==> h[id] == h3[id]
    ensures forall id {:trigger h[id]} :: id in before ==> h[id] == Retained(before, stringType)[id]
  {
    forall id | id in before
      ensures h[id] == Retained(before, stringType)[id]
    {
      assert id != n && id != n + 1 && id != n + 2 && id != n + 3;
      assert id in h1 && h2[id] == h1[id];
      assert id in h2 && h3[id] == h2[id];
      assert id in h3 && h[id] == h3[id];
    }
  }

  /** The stages add n to n + 5 and, of the older nodes, count only the string type once more. */
  lemma StagedFrame(before: Heap, h1: Heap, h2: Heap, h3: Heap, h: Heap, n: NodeId,
                    typeKey: Key, destructKey: Key, stringType: Ptr)
    requires Staged(before, h1, h2, h3, h, n, typeKey, destructKey, stringType)
    ensures h.Keys == before.Keys + {n, n + 1, n + 2, n + 3, n + 4, n + 5}
    ensures forall id {:trigger h[id]} :: id in before ==> h[id] == Retained(before, stringType)[id]
  {
    StagedKeys(before, h1, h2, h3, h, n, typeKey, destructKey, stringType);
    FrameChain(before, h1, h2, h3, h, n, stringType);
  }

  /** The four stages compose to the heap TypeMapsMade describes. */
  lemma StagedShape(before: Heap, h1: Heap, h2: Heap, h3: Heap, h: Heap, n: NodeId,
                    typeKey: Key, destructKey: Key, stringType: Ptr)
    requires Staged(before, h1, h2, h3, h, n, typeKey, destructKey, stringType)
    ensures TypeMapsMade(h, before, n, typeKey, destructKey, stringType)
  {
    StagedFrame(before, h1, h2, h3, h, n, typeKey, destructKey, stringType);
    StagedNodes(before, h1, h2, h3, h, n, typeKey, destructKey, stringType);
    Assembled(h, before, n, typeKey, destructKey, stringType);
  }

  lemma Assembled(h: Heap, before: Heap, n: NodeId, typeKey: Key, destructKey: Key, stringType: Ptr)
    requires forall id :: n <= id < n + 6 ==> id !in before
    requires h.Keys == before.Keys + {n, n + 1, n + 2, n + 3, n + 4, n + 5}
    requires forall id {:trigger h[id]} :: id in before ==> h[id] == Retained(before, stringType)[id]
    requires forall id :: n <= id < n + 6 ==> id in h && h[id] == BuiltNode(before, n, typeKey, destructKey, stringType, id)
    ensures TypeMapsMade(h, before, n, typeKey, destructKey, stringType)
  {
    forall id | id in h
      ensures h[id] == BuiltNode(before, n, typeKey, destructKey, stringType, id)
    {
      if id in before {
        assert !(n <= id < n + 6);
      }
    }
  }

  lemma StagedNodes(before: Heap, h1: Heap, h2: Heap, h3: Heap, h: Heap, n: NodeId,
                    typeKey: Key, destructKey: Key, stringType: Ptr)
    requires Staged(before, h1, h2, h3, h, n, typeKey, destructKey, stringType)
    ensures forall id :: n <= id < n + 6 ==> id in h && h[id] == BuiltNode(before, n, typeKey, destructKey, stringType, id)
  {
    StagedMaps(before, h1, h2, h3, h, n, typeKey, destructKey, stringType);
    StagedTypes(before, h1, h2, h3, h, n, typeKey, destructKey, stringType);
    StagedClosures(before, h1, h2, h3, h, n, typeKey, destructKey, stringType);
    forall id | n <= id < n + 6
      ensures id in h && h[id] == BuiltNode(before, n, typeKey, destructKey, stringType, id)
    {
      assert id == n || id == n + 1 || id == n + 2 || id == n + 3 || id == n + 4 || id == n + 5;
    }
  }

  /** The root and types maps after the four stages. */
  lemma StagedMaps(before: Heap, h1: Heap, h2: Heap, h3: Heap, h: Heap, n: NodeId,
                   typeKey: Key, destructKey: Key, stringType: Ptr)
    requires Staged(before, h1, h2, h3, h, n, typeKey, destructKey, stringType)
    ensures n in h && h[n] == BuiltNode(before, n, typeKey, destructKey, stringType, n)
    ensures n + 1 in h && h[n + 1] == BuiltNode(before, n, typeKey, destructKey, stringType, n + 1)
  {
    assert EntriesOf(h1, n + 1) == map["char32_string" := stringType];
    assert EntriesOf(h2, n + 1) == map["char32_string" := stringType, "map" := Some(n + 2)];
  }

  /** The two container types after the four stages. */
  lemma StagedTypes(before: Heap, h1: Heap, h2: Heap, h3: Heap, h: Heap, n: NodeId,
                    typeKey: Key, destructKey: Key, stringType: Ptr)
    requires Staged(before, h1, h2, h3, h, n, typeKey, destructKey, stringType)
    ensures n + 2 in h && h[n + 2] == BuiltNode(before, n, typeKey, destructKey, stringType, n + 2)
    ensures n + 3 in h && h[n + 3] == BuiltNode(before, n, typeKey, destructKey, stringType, n + 3)
  {
    assert WrapInc(6) == 7;
  }

  /** The two closures after the four stages. */
  lemma StagedClosures(before: Heap, h1: Heap, h2: Heap, h3: Heap, h: Heap, n: NodeId,
                       typeKey: Key, destructKey: Key, stringType: Ptr)
    requires Staged(before, h1, h2, h3, h, n, typeKey, destructKey, stringType)
    ensures n + 4 in h && h[n + 4] == BuiltNode(before, n, typeKey, destructKey, stringType, n + 4)
    ensures n + 5 in h && h[n + 5] == BuiltNode(before, n, typeKey, destructKey, stringType, n + 5)
  {
  }
}
