/**
 * The Object node of obj_tree.h as a value: its attribute map, parent,
 * payload, payload size and reference count, together with the read-only
 * lookups on a heap of nodes (type, method resolution) and the payload
 * layout computed by obj_create.
 */
module ObjNode {
  import opened Wrappers
  import opened Words
  import opened Char32String
  import opened AttrMap

  /** A nullable `Object*`. */
  type Ptr = Option<NodeId>

  /** The C++ type `T` a type map was registered for with `type_register<T>`. */
  datatype NativeType = IUnknownPacker | UserType(id: nat)

  /** The functions the program stores in closures or data pointers. */
  datatype Function =
    | HashChar32String                  // hash_char32_string
    | CompareEqChar32String             // compare_eq_char32_string
    | DestructMap                       // destruct_map
    | DestructArray                     // destruct_array
    | RegisteredDestructor(t: NativeType) // the destructor lambda of type_register<T>

  /** What a node's `data` pointer points at. */
  datatype Payload =
    | NoData                             // data == NULL
    | Inline(offset: nat, size: nat)     // the uninitialised block obj_create reserved behind the header
    | KeyWord(key: Key)                  // a key stored in the pointer itself
    | Closure(func: Function)            // a Closure_Data whose `func` is set
    | FunctionPointer(func: Function)    // a function's address stored directly as `data`
    | Str(buf: seq<Char32>)              // a char32_t buffer
    | Raw(bytes: seq<bv8>)               // bytes copied in by make_raw
    | MapData(entries: map<string, Ptr>) // a Map_Data (std::unordered_map<std::string, Object*>)
    | VectorData(items: seq<Ptr>)        // a Vector_Data (std::vector<Object*>)
    | ComPointer(unk: nat)               // the IUnknown* pack_COM_object stores; `unk` names the COM object

  datatype Node = Node(attrs: HashMap, parent: Ptr, data: Payload, dataSize: Word, refCount: Word)

  /** All live nodes, by address. */
  type Heap = map<NodeId, Node>

  ghost predicate AttrsValid(nodes: Heap)
  {
    forall id {:trigger nodes[id].attrs} :: id in nodes ==> nodes[id].attrs.Valid()
  }

  /** sizeof(Object) on a 64-bit target: a 24-byte hash map, three pointers and two `size_t`. */
  const HEADER_SIZE: nat := 64

  /** An alignment request of 0 means 1. */
  function EffectiveAlign(align: nat): (a: nat)
    ensures a >= 1
  {
    if align == 0 then 1 else align
  }

  /** A payload at this offset behind the header is aligned to `a`. */
  predicate AlignedOffset(offset: nat, a: nat)
    requires a >= 1
  {
    (HEADER_SIZE + offset) % a == 0
  }

  lemma ModOfMultiplePlus(k: int, a: int, s: int)
    requires a >= 1 && 0 <= s < a
    ensures (k * a + s) % a == s
  {
    var y := k * a + s;
    var d := y / a - k;
    assert y == (y / a) * a + y % a;
    assert d * a == s - y % a;
  }

  lemma PaddingArithmetic(a: nat, pad: nat, q: nat)
    requires a >= 1 && pad == (a - HEADER_SIZE % a) % a && q < pad
    ensures AlignedOffset(pad, a) && !AlignedOffset(q, a)
  {
    var r := HEADER_SIZE % a;
    var k := HEADER_SIZE / a;
    assert HEADER_SIZE == k * a + r;
    ModOfMultiplePlus(1, a, 0);
    assert r != 0;
    ModOfMultiplePlus(0, a, a - r);
    assert pad == a - r;
    ModOfMultiplePlus(k + 1, a, 0);
    assert HEADER_SIZE + pad == (k + 1) * a + 0;
    ModOfMultiplePlus(k, a, r + q);
    assert HEADER_SIZE + q == k * a + (r + q);
  }

  /**
   * The padding obj_create puts between the header and the payload: none for
   * an empty payload, otherwise the least amount that makes the payload's
   * offset a multiple of the alignment.
   */
  function Padding(size: nat, align: nat): (pad: nat)
    ensures size == 0 ==> pad == 0
    ensures size > 0 ==> pad < EffectiveAlign(align) && AlignedOffset(pad, EffectiveAlign(align))
    ensures size > 0 ==> forall q :: 0 <= q < pad ==> !AlignedOffset(q, EffectiveAlign(align))
  {
    var a := EffectiveAlign(align);
    if size == 0 then 0
    else
      var pad := (a - HEADER_SIZE % a) % a;
      assert AlignedOffset(pad, a) by {
        if pad > 0 {
          PaddingArithmetic(a, pad, 0);
        }
      }
      assert forall q :: 0 <= q < pad ==> !AlignedOffset(q, a) by {
        forall q | 0 <= q < pad
          ensures !AlignedOffset(q, a)
        {
          PaddingArithmetic(a, pad, q);
        }
      }
      pad
  }

  /** The node obj_create returns once its allocation has succeeded. */
  function NewNode(size: nat, align: nat): Node
  {
    Node(EMPTY, None, if size == 0 then NoData else Inline(HEADER_SIZE + Padding(size, align), size), 0, 0)
  }

  /** Once its payload is overwritten, a new node no longer depends on the layout obj_create chose. */
  lemma NewNodeWithData(size: nat, align: nat, data: Payload)
    ensures NewNode(size, align).(data := data) == Node(EMPTY, None, data, 0, 0)
  {
  }

  /**
   * A new node has no attributes, no parent, a zero payload size and a zero
   * count; it has a payload exactly when a size is asked for, and that
   * payload starts at the first address behind the header that is a
   * multiple of the alignment (0 counting as 1).
   */
  lemma NewNodeLayout(size: nat, align: nat)
    ensures var node := NewNode(size, align);
            && node.attrs == EMPTY && node.parent.None? && node.dataSize == 0 && node.refCount == 0
            && (node.data.NoData? <==> size == 0)
            && (size > 0 ==> node.data.Inline? && node.data.size == size
                             && node.data.offset % EffectiveAlign(align) == 0
                             && HEADER_SIZE <= node.data.offset < HEADER_SIZE + EffectiveAlign(align)
                             && forall o :: HEADER_SIZE <= o < node.data.offset ==> o % EffectiveAlign(align) != 0)
  {
    if size > 0 {
      var a := EffectiveAlign(align);
      var pad := Padding(size, align);
      forall o | HEADER_SIZE <= o < HEADER_SIZE + pad
        ensures o % a != 0
      {
        assert !AlignedOffset(o - HEADER_SIZE, a);
      }
    }
  }

  /** obj_get_type: the node's attribute under OBJ_TYPE_KEY.  The node must be live. */
  function TypeOf(nodes: Heap, typeKey: Key, id: NodeId): Ptr
    requires AttrsValid(nodes) && id in nodes
  {
    Get(nodes[id].attrs, typeKey)
  }

  /** `method_obj->data` read as a pointer: None when it is NULL (or the node is gone). */
  function DataPointer(nodes: Heap, id: NodeId): Option<Payload>
  {
    if id in nodes && nodes[id].data != NoData then Some(nodes[id].data) else None
  }

  /**
   * obj_query_method: the data of the node's own attribute under the key;
   * failing that, the data of its type's attribute under the key; else NULL.
   */
  function QueryMethod(nodes: Heap, typeKey: Key, id: NodeId, key: Key): (r: Option<Payload>)
    requires AttrsValid(nodes) && id in nodes
    ensures Get(nodes[id].attrs, key).Some? ==> r == DataPointer(nodes, Get(nodes[id].attrs, key).value)
    ensures Get(nodes[id].attrs, key).None? && TypeOf(nodes, typeKey, id).None? ==> r.None?
  {
    match Get(nodes[id].attrs, key)
    case Some(holder) => DataPointer(nodes, holder)
    case None =>
      match TypeOf(nodes, typeKey, id)
      case None => None
      case Some(t) =>
        if t !in nodes then None
        else
          match Get(nodes[t].attrs, key)
          case None => None
          case Some(holder) => DataPointer(nodes, holder)
  }

  /** Two heaps with the same nodes that differ at most in reference counts. */
  ghost predicate SameShape(a: Heap, b: Heap)
  {
    && a.Keys == b.Keys
    && forall id :: id in a ==> a[id].attrs == b[id].attrs && a[id].data == b[id].data
  }

  /** Method resolution reads attributes and payloads only, never reference counts. */
  lemma QueryMethodIgnoresCounts(a: Heap, b: Heap, typeKey: Key, id: NodeId, key: Key)
    requires AttrsValid(a) && AttrsValid(b) && id in a && SameShape(a, b)
    ensures QueryMethod(a, typeKey, id, key) == QueryMethod(b, typeKey, id, key)
  {
  }

  /**
   * Giving an instance its own attribute overrides whatever its type holds
   * under that key.
   */
  lemma InstanceAttributeOverridesType(nodes: Heap, typeKey: Key, id: NodeId, key: Key, m: NodeId)
    requires AttrsValid(nodes) && id in nodes && m in nodes && m != id
    ensures var after := nodes[id := nodes[id].(attrs := Add(nodes[id].attrs, key, m))];
            AttrsValid(after) && QueryMethod(after, typeKey, id, key) == DataPointer(nodes, m)
  {
    GetAfterAdd(nodes[id].attrs, key, m, key);
  }

  /**
   * An attribute added to a type is found by every instance of that type
   * that has no attribute of its own under the key.
   */
  lemma TypeAttributeReachesInstances(nodes: Heap, typeKey: Key, id: NodeId, t: NodeId, key: Key, m: NodeId)
    requires AttrsValid(nodes) && id in nodes && t in nodes && m in nodes && t != id && m != t
    requires TypeOf(nodes, typeKey, id) == Some(t) && Get(nodes[id].attrs, key).None?
    ensures var after := nodes[t := nodes[t].(attrs := Add(nodes[t].attrs, key, m))];
            AttrsValid(after) && QueryMethod(after, typeKey, id, key) == DataPointer(nodes, m)
  {
    GetAfterAdd(nodes[t].attrs, key, m, key);
  }

  /**
   * Calling a hash closure on a node's data.  hash_char32_string is the only
   * hash function the program installs; anything else, or data that is not a
   * terminated string, is undefined behaviour (None).
   */
  function ApplyHash(closure: Payload, data: Payload): Option<Key>
  {
    match (closure, data)
    case (Closure(HashChar32String), Str(buf)) => if Terminated(buf, 0) then Some(HashString(buf)) else None
    case _ => None
  }

  /**
   * Calling an equality closure on two nodes' data; compare_eq_char32_string
   * is the only one installed.  None is undefined behaviour.
   */
  function ApplyCompareEq(closure: Payload, data1: Payload, data2: Payload): Option<bool>
  {
    match (closure, data1, data2)
    case (Closure(CompareEqChar32String), Str(a), Str(b)) =>
      if Terminated(a, 0) && Terminated(b, 0) then Some(CompareEq(a, b, 0) == 1) else None
    case _ => None
  }
}
