/**
 * The last two steps of Easy_Object::TypeSystemInit, after the type maps:
 * type_name_key is interned from "@object.type_name", and IUnknown_Packer
 * is registered as "COM_IUnknown".  The lemmas here carry the facts one
 * step hands to the next.
 */
module TypeSystemSetup {
  import opened Wrappers
  import opened Words
  import opened Char32String
  import opened AttrMap
  import opened ObjNode
  import opened Interning
  import opened KeyNames
  import opened ObjTree
  import opened Containers
  import opened TypeMaps
  import opened TypeRegistry

  /** U"COM_IUnknown" without its terminator. */
  const COM_IUNKNOWN: seq<Char32> := [67, 79, 77, 95, 73, 85, 110, 107, 110, 111, 119, 110]

  /** The entries of the types map once the type maps are built. */
  function BuiltTypes(n: NodeId, stringType: Ptr): map<string, Ptr>
  {
    map["char32_string" := stringType, "map" := Some(n + 2), "array" := Some(n + 3)]
  }

  /**
   * type_register<IUnknown_Packer>(U"COM_IUnknown") as TypeSystemInit
   * makes it: the types map is n + 1 and the map type n + 2.
   */
  function ComRegistration(typeKey: Key, nameKey: Key, destructKey: Key, n: NodeId, counted: bool): (r: Registration)
    ensures Terminated(r.name, 0) && Text(r.name) == COM_IUNKNOWN
    ensures r.t == IUnknownPacker && r.utf8Name == "COM_IUnknown" && r.types == Some(n + 1) && r.mapType == Some(n + 2)
  {
    ComNameText();
    Registration(IUnknownPacker, COM_IUNKNOWN + [0], "COM_IUnknown", typeKey, nameKey, destructKey,
                 Some(n + 2), Some(n + 1), counted)
  }

  lemma ComNameText()
    ensures Terminated(COM_IUNKNOWN + [0], 0) && Text(COM_IUNKNOWN + [0]) == COM_IUNKNOWN
  {
    assert NulFree(COM_IUNKNOWN);
    HashOfText(COM_IUNKNOWN);
  }

  /**
   * What obj_attr_hash_string(U"@object.type_name") leaves, from table t
   * with the next address n: the call returns (r) exactly when the probe
   * ends on an equal entry or a vacant key, and returns that key; on a
   * vacant key a string node is added at n and the key map gains the key.
   * `interned`, `keyMap` and `next` are the heap, the key map and the next
   * address afterwards.
   */
  ghost predicate TypeNameInterned(t: KeyTable, n: NodeId, p: Probe, r: Outcome<Key>, interned: Heap, keyMap: HashMap, next: NodeId)
    requires t.Valid()
  {
    && (r.Returned? <==> p.Found? || p.Vacant?)
    && (r.Returned? ==> r.value == p.key)
    && (p.Vacant? ==>
          && interned == Retained(t.nodes, t.stringType)[n := InternedNode(TYPE_NAME + [0], t.typeKey, t.stringType)]
          && keyMap == Add(t.keyMap, p.key, n) && next == n + 1)
    && (!p.Vacant? ==> interned == t.nodes && keyMap == t.keyMap && next == n)
  }

  /**
   * The heap TypeSystemInit leaves when the root did not exist, from the
   * heap `before`, key map k0 and next address n: the type maps are built
   * from n (`built`); the type-name probe runs on k0 over them
   * (`interned`, next address m); when that call returns, IUnknown_Packer
   * is registered from m (`registered`, counted in type_db when `counted`)
   * and the handle type_register returned is dropped; otherwise the call
   * ends there.  `after`, `keyMap` and `next` are the final heap, key map
   * and next address.
   */
  ghost predicate InitNodesMade(before: Heap, k0: HashMap, n: NodeId, typeKey: Key, destructKey: Key, stringType: Ptr,
                                counted: bool, built: Heap, p: Probe, r: Outcome<Key>, interned: Heap, m: NodeId,
                                registered: Heap, after: Heap, keyMap: HashMap, next: NodeId)
  {
    && TypeMapsMade(built, before, n, typeKey, destructKey, stringType)
    && AttrsValid(built) && k0.Valid()
    && TypeNameInterned(KeyTable(k0, built, typeKey, stringType), n + 6, p, r, interned, keyMap, m)
    && (!r.Returned? ==> after == interned && next == m)
    && (r.Returned? ==>
          && TypeRegistered(registered, interned, m, ComRegistration(typeKey, r.value, destructKey, n, counted))
          && after == Released(registered, Some(m)) && next == m + 3)
  }

  /** After obj_init_key_map the key map has its buckets and the string type is live, as TypeSystemInit needs. */
  lemma InitReady(t: KeyTable, before: Heap, n: NodeId)
    requires Initialised(t, before, n)
    ensures t.keyMap.buckets.Some? && n + 5 in t.nodes
  {
    InitShape(t, before, n);
    assert Get(t.keyMap, TYPE_KEY_VALUE) == Some(n + 4);
  }

  /**
   * Once obj_init_key_map has run, the key of "@object.type_name" is vacant:
   * the key map holds only the type key and the destructor key, and whatever
   * nodes are added afterwards do not change that.
   */
  lemma TypeNameVacantAfterInit(t: KeyTable, before: Heap, n: NodeId, built: Heap)
    requires Initialised(t, before, n) && AttrsValid(built)
    ensures Terminated(TYPE_NAME + [0], 0)
    ensures ProbeFrom(KeyTable(t.keyMap, built, t.typeKey, t.stringType), StringSeeker(TYPE_NAME + [0]), TYPE_NAME_KEY_VALUE, 0)
            == Vacant(TYPE_NAME_KEY_VALUE)
  {
    TypeNameKey();
    var u := KeyTable(t.keyMap, built, t.typeKey, t.stringType);
    ProbeStep(u, StringSeeker(TYPE_NAME + [0]), TYPE_NAME_KEY_VALUE, 0);
    assert (TYPE_NAME_KEY_VALUE + 0) % WORD_MODULUS == TYPE_NAME_KEY_VALUE;
  }

  /**
   * obj_init_key_map, then TypeSystemInit, as initialize() orders them: the
   * interning of "@object.type_name" returns its string hash at a vacant key,
   * so TypeSystemInit goes on to register COM_IUnknown, whose type map is the
   * node after the interned name.
   */
  lemma InitThenTypeSystem(t: KeyTable, before: Heap, n: NodeId, counted: bool, built: Heap, p: Probe,
                           r: Outcome<Key>, interned: Heap, m: NodeId, registered: Heap, after: Heap,
                           keyMap: HashMap, next: NodeId)
    requires Initialised(t, before, n)
    requires InitNodesMade(t.nodes, t.keyMap, n + 7, t.typeKey, DESTRUCT_FUNCTION_KEY_VALUE, t.stringType, counted,
                           built, p, r, interned, m, registered, after, keyMap, next)
    requires p == ProbeFrom(KeyTable(t.keyMap, built, t.typeKey, t.stringType), StringSeeker(TYPE_NAME + [0]), TYPE_NAME_KEY_VALUE, 0)
    ensures r == Returned(TYPE_NAME_KEY_VALUE) && m == n + 14 && next == n + 17
  {
    TypeNameVacantAfterInit(t, before, n, built);
  }

  /** None of the three types the type maps name is "COM_IUnknown". */
  lemma ComNotBuiltIn(n: NodeId, stringType: Ptr)
    ensures "COM_IUnknown" !in BuiltTypes(n, stringType)
  {
    assert "COM_IUnknown"[0] == 'C';
    assert "char32_string"[0] == 'c' && "map"[0] == 'm' && "array"[0] == 'a';
  }

  /**
   * Interning the type-name key leaves the types map n + 1 typed by the map
   * type n + 2 and holding its three entries, none of them "COM_IUnknown";
   * so the registration that follows inserts its entry.
   */
  lemma InternedTypesMap(before: Heap, built: Heap, interned: Heap, n: NodeId, typeKey: Key, destructKey: Key,
                         stringType: Ptr, node: Node)
    requires TypeMapsMade(built, before, n, typeKey, destructKey, stringType)
    requires stringType.None? || stringType.value < n
    requires interned == built || interned == Retained(built, stringType)[n + 6 := node]
    requires AttrsValid(interned)
    ensures n + 1 in interned && n + 2 in interned
    ensures TypeOf(interned, typeKey, n + 1) == Some(n + 2)
    ensures MapEntries(interned, Some(n + 1)) == Some(BuiltTypes(n, stringType))
    ensures Inserts(interned, Some(n + 1), "COM_IUnknown")
  {
    assert n + 1 in built && n + 2 in built;
    assert built[n + 1] == BuiltNode(before, n, typeKey, destructKey, stringType, n + 1);
    assert interned[n + 1] == built[n + 1];
    GetAfterAdd(EMPTY, typeKey, n + 2, typeKey);
    ComNotBuiltIn(n, stringType);
  }

  /**
   * A type map whose registration entered it in the types map holds two
   * counts, so dropping the handle type_register returned does not free it.
   */
  lemma RegisteredMapKept(before: Heap, r: Heap, m: NodeId, reg: Registration, tearingDown: set<NodeId>)
    requires Terminated(reg.name, 0) && TypeRegistered(r, before, m, reg) && Inserts(before, reg.types, reg.utf8Name)
    ensures m in r && r[m].refCount >= 2 && !Frees(r, tearingDown, Some(m))
  {
    assert m in r;
    assert r[m] == RegisteredNode(before, m, reg, m);
  }
}
