/**
 * The payloads Easy_Object works with, read and rewritten as values: the
 * Map_Data and Vector_Data a node may hold, the heap after one payload
 * update, and size().
 */
module Containers {
  import opened Wrappers
  import opened Words
  import opened AttrMap
  import opened ObjNode
  import opened ObjTree

  /** The entries of the Map_Data held by p, when p is a live node with one. */
  function MapEntries(nodes: Heap, p: Ptr): Option<map<string, Ptr>>
  {
    if p.Some? && p.value in nodes && nodes[p.value].data.MapData? then Some(nodes[p.value].data.entries) else None
  }

  /** The elements of the Vector_Data held by p, when p is a live node with one. */
  function VectorItems(nodes: Heap, p: Ptr): Option<seq<Ptr>>
  {
    if p.Some? && p.value in nodes && nodes[p.value].data.VectorData? then Some(nodes[p.value].data.items) else None
  }

  /** The heap with node id's payload replaced. */
  function WithData(nodes: Heap, id: NodeId, data: Payload): (r: Heap)
    requires AttrsValid(nodes) && id in nodes
    ensures AttrsValid(r) && r.Keys == nodes.Keys
  {
    nodes[id := nodes[id].(data := data)]
  }

  /** `map->find(key)`: the stored pointer, or NULL when the map has no such key. */
  function Lookup(nodes: Heap, p: Ptr, key: string): Ptr
  {
    match MapEntries(nodes, p)
    case Some(entries) => if key in entries then entries[key] else None
    case None => None
  }

  /** The entries of node id's Map_Data; none when it holds something else. */
  function EntriesOf(nodes: Heap, id: NodeId): map<string, Ptr>
  {
    if id in nodes && nodes[id].data.MapData? then nodes[id].data.entries else map[]
  }

  /**
   * `map->insert(std::make_pair(key, v))` on node id's Map_Data followed by
   * obj_inc_ref(v): the heap with the entry stored and v counted once more.
   */
  function InsertEntry(nodes: Heap, id: NodeId, key: string, v: Ptr): (r: Heap)
    requires AttrsValid(nodes) && id in nodes
    ensures AttrsValid(r) && r.Keys == nodes.Keys
  {
    Retained(WithData(nodes, id, MapData(EntriesOf(nodes, id)[key := v])), v)
  }

  /** p when it is a live node, NULL otherwise: what obj_set_type and obj_inc_ref can act on. */
  function Live(nodes: Heap, p: Ptr): (r: Ptr)
    ensures r.Some? ==> r == p && r.value in nodes
  {
    if p.Some? && p.value in nodes then p else None
  }

  /** A node just created with payload `data`, typed `t` when t is given, counted `count` times. */
  function TypedNode(data: Payload, typeKey: Key, t: Ptr, count: Word): Node
  {
    Node(if t.Some? then Add(EMPTY, typeKey, t.value) else EMPTY, None, data, 0, count)
  }

  /**
   * The heap after a node id is created with a payload and given type t:
   * the new node, typed when t is live, and t counted once more.
   */
  function WithTypedNode(nodes: Heap, typeKey: Key, t: Ptr, id: NodeId, data: Payload, count: Word): (r: Heap)
    requires AttrsValid(nodes) && id !in nodes
    ensures AttrsValid(r) && r.Keys == nodes.Keys + {id}
  {
    Retained(nodes, Live(nodes, t))[id := TypedNode(data, typeKey, Live(nodes, t), count)]
  }

  /** obj_create, obj_set_type and the handle's obj_inc_ref, one heap after another, make WithTypedNode. */
  lemma TypedSteps(before: Heap, h0: Heap, h1: Heap, h2: Heap, typeKey: Key, t: Ptr, id: NodeId, data: Payload)
    requires AttrsValid(before) && id !in before && AttrsValid(h0)
    requires h0 == before[id := Node(EMPTY, None, data, 0, 0)]
    requires Live(before, t).Some? ==> h1 == Retained(WithAttr(h0, id, typeKey, t.value), t)
    requires Live(before, t).None? ==> h1 == h0
    requires h2 == Retained(h1, Some(id))
    ensures h2 == WithTypedNode(before, typeKey, t, id, data, 1)
  {
    var w := WithTypedNode(before, typeKey, t, id, data, 1);
    assert h2.Keys == w.Keys;
    forall x | x in w
      ensures h2[x] == w[x]
    {
      if x != id {
        assert h2[x] == h1[x];
      }
    }
  }

  /** `vec->erase(vec->begin() + i)`: the elements after position i move down by one. */
  function RemoveAt(items: seq<Ptr>, i: nat): (r: seq<Ptr>)
    requires i < |items|
    ensures |r| == |items| - 1
    ensures forall j :: 0 <= j < i ==> r[j] == items[j]
    ensures forall j :: i <= j < |r| ==> r[j] == items[j + 1]
    ensures multiset(r) + multiset{items[i]} == multiset(items)
  {
    assert items == items[..i] + [items[i]] + items[i + 1..];
    items[..i] + items[i + 1..]
  }

  /**
   * Easy_Object::size(): the length of an array-typed node's vector, the
   * number of entries of a map-typed node's map, 0 for any other node.  The
   * type is read before anything else is checked, so a NULL handle is
   * undefined behaviour, and so is a node of the right type whose payload
   * is not the container its type promises.
   */
  function SizeOf(nodes: Heap, typeKey: Key, arrayType: Ptr, mapType: Ptr, p: Ptr): (r: Outcome<nat>)
    requires AttrsValid(nodes)
    ensures p.None? ==> r.UndefinedBehaviour?
    ensures r.Returned? && r.value > 0 ==>
              || (VectorItems(nodes, p).Some? && r.value == |VectorItems(nodes, p).value|)
              || (MapEntries(nodes, p).Some? && r.value == |MapEntries(nodes, p).value|)
  {
    if p.None? || p.value !in nodes then UndefinedBehaviour
    else
      var t := TypeOf(nodes, typeKey, p.value);
      if t == arrayType then
        (if nodes[p.value].data.VectorData? then Returned(|nodes[p.value].data.items|) else UndefinedBehaviour)
      else if t == mapType then
        (if nodes[p.value].data.MapData? then Returned(|nodes[p.value].data.entries|) else UndefinedBehaviour)
      else Returned(0)
  }

  /**
   * Easy_Object::size() as evidently intended, with the `if (!obj)` guard
   * every other member of the class has: 0 for a NULL handle.
   */
  function SizeOfIntended(nodes: Heap, typeKey: Key, arrayType: Ptr, mapType: Ptr, p: Ptr): (r: Outcome<nat>)
    requires AttrsValid(nodes)
  {
    if p.None? then Returned(0) else SizeOf(nodes, typeKey, arrayType, mapType, p)
  }

  /** The guarded size() is defined on a NULL handle and agrees with the written one everywhere else. */
  lemma SizeOfIntendedGuardsNull(nodes: Heap, typeKey: Key, arrayType: Ptr, mapType: Ptr, p: Ptr)
    requires AttrsValid(nodes)
    ensures SizeOf(nodes, typeKey, arrayType, mapType, None).UndefinedBehaviour?
    ensures SizeOfIntended(nodes, typeKey, arrayType, mapType, None) == Returned(0)
    ensures p.Some? ==> SizeOfIntended(nodes, typeKey, arrayType, mapType, p) == SizeOf(nodes, typeKey, arrayType, mapType, p)
  {
  }

  /**
   * A handle copied from a pointer and then destroyed leaves the counts as
   * they were, except that a node nobody counted is freed by the destructor.
   */
  lemma CopyThenDrop(nodes: Heap, tearingDown: set<NodeId>, p: Ptr)
    requires p.Some? && p.value in nodes
    ensures nodes[p.value].refCount != 0 ==>
              !Frees(Retained(nodes, p), tearingDown, p) && Released(Retained(nodes, p), p) == nodes
    ensures nodes[p.value].refCount == 0 && p.value !in tearingDown ==> Frees(Retained(nodes, p), tearingDown, p)
  {
    var n := nodes[p.value];
    assert Retained(nodes, p)[p.value].refCount == WrapInc(n.refCount);
    if n.refCount != 0 {
      assert WrapDec(WrapInc(n.refCount)) == n.refCount;
      assert Released(Retained(nodes, p), p)[p.value] == n;
    }
  }

  /** Growing an array by push_back grows its size() by one. */
  lemma SizeAfterPushBack(nodes: Heap, typeKey: Key, arrayType: Ptr, mapType: Ptr, id: NodeId, items: seq<Ptr>, v: Ptr)
    requires AttrsValid(nodes) && id in nodes && VectorItems(nodes, Some(id)) == Some(items)
    requires TypeOf(nodes, typeKey, id) == arrayType
    ensures var after := Retained(WithData(nodes, id, VectorData(items + [v])), v);
            && SizeOf(nodes, typeKey, arrayType, mapType, Some(id)) == Returned(|items|)
            && SizeOf(after, typeKey, arrayType, mapType, Some(id)) == Returned(|items| + 1)
  {
    var after := Retained(WithData(nodes, id, VectorData(items + [v])), v);
    assert after[id].attrs == nodes[id].attrs && after[id].data == VectorData(items + [v]);
  }

  /** Erasing an element of an array in range shrinks its size() by one, whatever the erase released. */
  lemma SizeAfterEraseAt(nodes: Heap, after: Heap, typeKey: Key, arrayType: Ptr, mapType: Ptr, id: NodeId,
                         items: seq<Ptr>, index: nat)
    requires AttrsValid(nodes) && AttrsValid(after) && id in nodes && id in after && index < |items|
    requires VectorItems(nodes, Some(id)) == Some(items) && TypeOf(nodes, typeKey, id) == arrayType
    requires after[id].attrs == nodes[id].attrs && VectorItems(after, Some(id)) == Some(RemoveAt(items, index))
    ensures SizeOf(nodes, typeKey, arrayType, mapType, Some(id)) == Returned(|items|)
    ensures SizeOf(after, typeKey, arrayType, mapType, Some(id)) == Returned(|items| - 1)
  {
  }

  /**
   * Inserting a new key into a map (one that is not also taken for an
   * array by size()) grows its size() by one.
   */
  lemma SizeAfterInsert(nodes: Heap, typeKey: Key, arrayType: Ptr, mapType: Ptr, id: NodeId,
                        entries: map<string, Ptr>, key: string, v: Ptr)
    requires AttrsValid(nodes) && id in nodes && MapEntries(nodes, Some(id)) == Some(entries) && key !in entries
    requires TypeOf(nodes, typeKey, id) == mapType && mapType != arrayType
    ensures var after := Retained(WithData(nodes, id, MapData(entries[key := v])), v);
            && SizeOf(nodes, typeKey, arrayType, mapType, Some(id)) == Returned(|entries|)
            && SizeOf(after, typeKey, arrayType, mapType, Some(id)) == Returned(|entries| + 1)
  {
    var after := Retained(WithData(nodes, id, MapData(entries[key := v])), v);
    assert after[id].attrs == nodes[id].attrs && after[id].data == MapData(entries[key := v]);
  }

}
