/**
 * The COM side of Easy_Object: a packed IUnknown* is a node typed with the
 * type map type_db holds for IUnknown_Packer.  Every lookup of that entry
 * goes through `std::unordered_map::operator[]`, which inserts a null handle
 * when IUnknown_Packer was never registered.
 */
module ComObjects {
  import opened Wrappers
  import opened Words
  import opened AttrMap
  import opened ObjNode
  import opened Containers

  /** What get_COM_interface does once its guards are passed, or that it failed. */
  datatype ComQuery =
    | Failed                 // E_FAIL, and no call into COM
    | QueriedThrough(unk: nat) // QueryInterface on the stored IUnknown*; its HRESULT comes from COM
    | NotPacked              // the node passed the type check but holds no IUnknown*: the read is undefined

  /** type_db after `type_db[IUnknown_Packer]`: the entry, inserted as a null handle when missing. */
  function ComEntry(typeDb: map<NativeType, Ptr>): (r: map<NativeType, Ptr>)
    ensures IUnknownPacker in r && r.Keys == typeDb.Keys + {IUnknownPacker}
    ensures forall t :: t in typeDb ==> r[t] == typeDb[t]
    ensures IUnknownPacker !in typeDb ==> r[IUnknownPacker].None?
  {
    if IUnknownPacker in typeDb then typeDb else typeDb[IUnknownPacker := None]
  }

  /** operator[] inserts at most once: a second lookup leaves type_db as the first left it. */
  lemma ComEntryIdempotent(typeDb: map<NativeType, Ptr>)
    ensures ComEntry(ComEntry(typeDb)) == ComEntry(typeDb)
  {
  }

  /**
   * is_COM_object() on the pointer p, against type_db as it stands after the
   * lookup: p is not NULL and its type is the IUnknown_Packer entry.
   */
  predicate IsCom(nodes: Heap, typeKey: Key, typeDb: map<NativeType, Ptr>, p: Ptr)
    requires AttrsValid(nodes) && (p.Some? ==> p.value in nodes)
  {
    p.Some? && TypeOf(nodes, typeKey, p.value) == ComEntry(typeDb)[IUnknownPacker]
  }

  /**
   * Before IUnknown_Packer is registered its entry is a null handle, so every
   * untyped object counts as a COM object, and no typed one does.
   */
  lemma UnregisteredComMatchesUntyped(nodes: Heap, typeKey: Key, typeDb: map<NativeType, Ptr>, id: NodeId)
    requires AttrsValid(nodes) && id in nodes && IUnknownPacker !in typeDb
    ensures IsCom(nodes, typeKey, typeDb, Some(id)) <==> TypeOf(nodes, typeKey, id).None?
  {
  }

  /**
   * A node just made by pack_COM_object counts as a COM object exactly when
   * the IUnknown_Packer entry is NULL or a live type map: a dangling entry
   * is not set as the type, so the node stays untyped and fails the check.
   */
  lemma PackedIsCom(nodes: Heap, typeKey: Key, typeDb: map<NativeType, Ptr>, id: NodeId, unk: nat)
    requires AttrsValid(nodes) && id !in nodes
    ensures var entry := ComEntry(typeDb)[IUnknownPacker];
            var r := WithTypedNode(nodes, typeKey, entry, id, ComPointer(unk), 1);
            id in r && r[id].data == ComPointer(unk)
            && (IsCom(r, typeKey, ComEntry(typeDb), Some(id)) <==> Live(nodes, entry) == entry)
  {
    var entry := ComEntry(typeDb)[IUnknownPacker];
    var t := Live(nodes, entry);
    var r := WithTypedNode(nodes, typeKey, entry, id, ComPointer(unk), 1);
    assert r[id] == TypedNode(ComPointer(unk), typeKey, t, 1);
    if t.Some? {
      GetAfterAdd(EMPTY, typeKey, t.value, typeKey);
    }
    ComEntryIdempotent(typeDb);
  }
}
