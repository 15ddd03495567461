# easy_direct_composition object store, modelled in Dafny

This project models the object store under easy_direct_composition. The
store lives in `src/obj_tree.c`. A thin C++ handle layer, `Easy_Object`,
sits on top of it in `src/obj_helper.cpp` and `src/obj_helper.h`. The model
also proves properties of the store.

**Objects.** Every object is a heap node with:

- a payload;
- a reference count;
- a chained hash map of attributes with 16 buckets (`Object_Hash_Map`).

An object's type is simply its attribute under `OBJ_TYPE_KEY`. Method
resolution (`obj_query_method`) looks at the object's own attributes first,
then at its type's. `obj_dec_ref` frees a node when its count reaches 0. The
teardown then runs the resolved destructor closure, releases the values held
in the attribute buckets, and deallocates the node.

**Keys.** Attribute keys are 64-bit words. A string key is interned in the
global key map by `obj_attr_hash_string`. It hashes the string with the
`h * 31 + c` fold and sets the top bit. It then probes linearly, with
`key++`, for an equal string node or a vacant key. `obj_init_key_map`
bootstraps:

- the hash and equality closures;
- the type-key node;
- the `char32_string` type;
- the destructor key.

**Handles.** On the C++ side, an `Easy_Object` handle holds one counted
reference. Map and array objects carry a `Map_Data` or `Vector_Data` payload,
and each of its entries holds a counted reference. `TypeSystemInit` builds:

- the root and types maps;
- the self-typed map type;
- the array type;
- the destructor closures;
- the `COM_IUnknown` type.

`type_register<T>` makes further type maps. `pack_COM_object`,
`is_COM_object` and `get_COM_interface` wrap COM pointers.

## Structure of the model

| module (file) | what it models |
|---|---|
| `Words`, `HashFold` (words.dfy) | 64-bit keys as words in [0, 2^64): `OBJ_KEY_HASH_FLAG` and wrapping `++`/`--` |
| `Char32String` (char32_string.dfy) | NUL-terminated UTF-32 buffers: `u32strlen`, `u32strcpy`, `compare_eq_char32_string`, `hash_char32_append` |
| `KeyNames` (key_names.dfy) | the well-known key names and their string hashes |
| `AttrMap` (attr_map.dfy) | `Object_Hash_Map` as a value: a bucket array of chains |
| `AttrIter` (attr_iter.dfy) | the attribute iterator |
| `ObjNode` (obj_node.dfy) | nodes, heap, `obj_create` layout, `obj_get_type`, `obj_query_method` |
| `Interning` (interning.dfy) | the probe loop shared by the two interning functions |
| `ObjTree` (obj_tree.dfy) | class `Runtime`, see below |
| `Containers` (containers.dfy) | `Map_Data`/`Vector_Data` payload operations and `size()` |
| `ComObjects` (com_objects.dfy) | the `type_db[IUnknown_Packer]` lookup and the COM check |
| `TypeMaps`, `TypeRegistry`, `TypeSystemSetup` | the heaps `TypeSystemInit` and `type_register` build |
| `EasyObject` (easy_object.dfy) | class `TypeSystem` (the statics of `Easy_Object`) and class `Handle` |

Class `Runtime` holds the C statics of obj_tree.c as fields:

- the node heap;
- the key map;
- the well-known keys;
- the string type.

Its methods are the imperative operations of obj_tree.c. The teardown
recursion (`obj_dec_ref` → `obj_free` → `obj_reset` → destructor →
`obj_dec_ref`) is a set of mutually recursive methods. `tearingDown` holds
the nodes whose `obj_free` is in progress. A ghost log, `destructorCalls`,
records every destructor call.

## Model

| member | source | states |
|---|---|---|
| Words.WithHashFlag | src/obj_tree.h:31-32 | `k \| OBJ_KEY_HASH_FLAG` satisfies OBJ_KEY_IS_HASH and keeps the 63 low bits; it is the identity on a key that already has the flag |
| Char32String.Strlen | src/obj_tree.c:69-75 | u32strlen: the result indexes the first NUL at or after the start, and no unit before it is NUL |
| Char32String.TextFromShape | src/obj_tree.c:69-75 | the string held in a buffer is NUL-free and is followed by the terminator |
| Char32String.CompareEq | src/obj_tree.c:59-67 | compare_eq_char32_string answers only 0 or 1 |
| Char32String.CompareEqIsTextEquality | src/obj_tree.c:59-67 | compare_eq_char32_string answers 1 exactly when the two strings are equal, in both directions |
| Char32String.Copy | src/obj_tree.c:77-82 | u32strcpy writes the source's string followed by one terminator |
| Char32String.CopyKeepsText | src/obj_tree.c:30-37 | the copy obj_create_char32_string makes holds the same string, in `u32strlen + 1` units |
| Char32String.HashAppend | src/obj_tree.c:46-53 | the result of hash_char32_append always carries the hash flag |
| Char32String.HashAppendIsFold | src/obj_tree.c:46-53 | hash_char32_append is the wrapping fold `h * 31 + c` over the string, with the flag set |
| Char32String.HashIsPolynomial | src/obj_tree.c:46-57 | closed form of the hash: `h * 31^n + sum c_j * 31^(n-1-j)` mod 2^64, with the flag set |
| Char32String.HashDependsOnTextOnly | src/obj_tree.c:55-57 | hash_char32_string depends only on the string before the terminator |
| KeyNames.ObjTypeKey | src/obj_tree.c:199 | OBJ_TYPE_KEY is the string hash of "@object.type" |
| KeyNames.HashFunctionKey | src/obj_tree.c:183 | OBJ_KEY_HASH_FUNCTION_KEY is the string hash of its name |
| KeyNames.CompareEqFunctionKey | src/obj_tree.c:191 | OBJ_KEY_COMPARE_EQ_FUNCTION_KEY is the string hash of its name |
| KeyNames.DestructFunctionKey | src/obj_tree.c:213 | the destructor key's name hashes to the key obj_init_key_map records |
| KeyNames.TypeNameKey | src/obj_helper.cpp:82 | "@object.type_name" hashes to the key TypeSystemInit stores in type_name_key |
| KeyNames.KeyBuckets | src/obj_tree.c:87 | the buckets of the well-known keys in a 16-bucket map (type key 9, hash 10, equality and destructor 2, type name 1) |
| AttrMap.Allocated | src/obj_tree.c:39-44 | init_hash_map gives a valid map with allocated buckets and no items |
| AttrMap.BucketIndex | src/obj_tree.c:87 | `key & ((1 << log2) - 1)` always indexes a bucket of the array |
| AttrMap.ChainFindIsFirstMatch | src/obj_tree.c:88-95 | the chain walk finds nothing exactly when no item has the key, and otherwise returns the first item that has it |
| AttrMap.Get | src/obj_tree.c:85-86 | obj_get_attr_internal returns NULL while the buckets are unallocated |
| AttrMap.GetIsInContents | src/obj_tree.c:85-96 | whatever a lookup returns is an item of the map stored under the key looked up |
| AttrMap.Add | src/obj_tree.c:98-113 | insertion allocates the buckets on first use, adds exactly one item to the contents and increments obj_count |
| AttrMap.AddWithoutItem | src/obj_tree.c:98-106 | when the item's malloc fails, the buckets are still allocated and the contents and count are unchanged |
| AttrMap.GetAfterFailedAdd | src/obj_tree.c:105-106 | a failed insertion leaves every lookup as it was |
| AttrMap.GetAfterAdd | src/obj_tree.c:98-113 | after insertion, the new item shadows earlier items under its key; lookups of other keys are unchanged |
| AttrIter.FirstOccupied | src/obj_tree.c:324-327 | the bucket scan stops at the first non-empty bucket, or at the bucket count, and skips only empty buckets |
| AttrIter.Next | src/obj_tree.c:311-329 | an obj_attr_iter_next step keeps the iterator on the same object, pointing at an item of its map |
| AttrIter.IterNext | src/obj_tree.c:311-329 | the imperative loop of obj_attr_iter_next computes the same step as AttrIter.Next |
| AttrIter.Begin | src/obj_tree.c:295-301 | obj_attr_iter_begin yields a valid iterator on the object |
| AttrIter.IterEqual | src/obj_tree.c:331-336 | obj_attr_iter_equal answers 1 exactly when the object, bucket index and item all agree |
| AttrIter.UnallocatedBeginNeverReachesEnd | src/obj_tree.c:303-309 | on an object without allocated buckets, every walk from begin stays at index 0, so it never equals end, which is at index 1 |
| AttrIter.FirstBucketVisitedTwice | src/obj_tree.c:318-326 | begin yields bucket 0's head; after walking bucket 0's chain, the iterator yields the same head again |
| AttrIter.FirstBucketVisitedOnceIntended | src/obj_tree.c:318-326 | with the corrected step, after walking bucket 0's chain the iterator reaches the next occupied bucket's head, or end |
| AttrIter.UnallocatedBeginIsEndIntended | src/obj_tree.c:303-309 | with the corrected end, begin equals end on an object without attributes; on allocated maps end is unchanged |
| ObjNode.Padding | src/obj_tree.c:218-221 | the padding is 0 for an empty payload; otherwise it is the least padding that aligns the payload (an alignment of 0 counts as 1) |
| ObjNode.NewNodeLayout | src/obj_tree.c:217-234 | a new node has no attributes, no parent, a zero data size and a zero count; it has a payload exactly when a size is requested, and the payload sits at the first aligned address behind the header |
| ObjNode.QueryMethod | src/obj_tree.c:142-152 | obj_query_method returns the node's own attribute data first; with neither an own attribute nor a type it returns NULL |
| ObjNode.QueryMethodIgnoresCounts | src/obj_tree.c:142-152 | method resolution does not depend on reference counts |
| ObjNode.InstanceAttributeOverridesType | src/obj_tree.c:143-144 | an instance's own attribute overrides its type's |
| ObjNode.TypeAttributeReachesInstances | src/obj_tree.c:145-150 | an attribute added to a type is found by every instance that lacks its own |
| Interning.FoundIsEqualEntry | src/obj_tree.c:120-124 | a probe that finds a key stops at an entry the seeker judges equal |
| Interning.VacantIsFree | src/obj_tree.c:120-127 | a probe that ends on a vacant key ends on a key the map does not hold |
| Interning.ProbeStep | src/obj_tree.c:165-169 | one iteration of the loop: a free key ends it as vacant, an equal entry as found, and an unequal entry moves on to `key + 1` |
| Interning.ProbeStepStuck | src/obj_tree.c:121 | an entry of another type makes the loop spin at the same key |
| Interning.ReprobeFindsInsertion | src/obj_tree.c:126-127 | interning is idempotent: after the entry is added at the vacant key, the same probe finds it |
| Interning.SameKeySameString | src/obj_tree.c:165-167 | two strings found at the same key are equal |
| Interning.ProbeSameText | src/obj_tree.c:161-169 | the string probe depends only on the string, not on what follows its terminator |
| Interning.PastMismatchStepOn | src/obj_tree.c:121 | corrected loop: an entry of another type is passed over like an unequal one |
| Interning.PastMismatchFoundIsEqualEntry | src/obj_tree.c:120-124 | the corrected loop keeps the guarantee that a found key holds an equal entry |
| Interning.PastMismatchVacantIsFree | src/obj_tree.c:120-127 | the corrected loop stops as vacant only at a free key |
| ObjTree.ClearedAfterAdd | src/obj_tree.c:239-245 | obj_clear_attr releases a newly added value only when its key falls in buckets 0 to 3 |
| ObjTree.TypeAttributeNeverReleased | src/obj_tree.c:239 | a node's type attribute (bucket 9) is never released by obj_clear_attr |
| ObjTree.AllClearedAfterAdd | src/obj_tree.c:239-245 | corrected clear over every bucket: each added value is released once more |
| ObjTree.TypeAttributeReleasedByFullClear | src/obj_tree.c:239 | the corrected clear releases the type a node was given |
| ObjTree.ReleaseOneMore | src/obj_tree.c:135-139 | a release on top of earlier ones that still leaves the node alive finds a count of at least 2, so it only decrements |
| ObjTree.HashStringConsing | src/obj_tree.c:161-177 | equal strings get the same interning outcome; two strings found at the same key are equal |
| ObjTree.ReprobeFindsInternedString | src/obj_tree.c:170-176 | after a string is interned, probing for it again finds the key it was stored under |
| ObjTree.ReprobeFindsInternedNode | src/obj_tree.c:126-127 | after obj_attr_hash_internal adds a node, probing again finds it |
| ObjTree.InternedNodeMatches | src/obj_tree.c:170-175 | the node added for a new string is one the string probe judges equal |
| ObjTree.DestructKeyVacant | src/obj_tree.c:213 | when the destructor name is interned, its probe stops at once, at its own hash |
| ObjTree.InitCounts | src/obj_tree.c:179-215 | the reference counts obj_init_key_map leaves on its seven nodes |
| ObjTree.InitStringMethods | src/obj_tree.c:205-210 | each string node made at init resolves the hash and equality closures through its type |
| ObjTree.InitShape | src/obj_tree.c:179-215 | the attributes and payloads of the nodes obj_init_key_map makes |
| ObjTree.InitDestructNameFound | src/obj_tree.c:213 | interning the destructor name again finds the node made for it |
| ObjTree.InitFunctionNamesUnregistered | src/obj_tree.c:184-197 | the two function-name nodes hold their keys, but neither key is in the key map |
| ObjTree.InitTypeNameSpins | src/obj_tree.c:166 | after init, interning "@object.type" never returns: the untyped type-key node makes the loop spin |
| ObjTree.InitTypeNameInternsPastMismatch | src/obj_tree.c:166 | with the corrected loop, interning "@object.type" after init stops at the next, free key |
| ObjTree.Runtime.constructor | src/obj_tree.c:7-17 | the statics at program start: zero keys, an unallocated key map, no string type, no nodes |
| ObjTree.Runtime.Create | src/obj_tree.c:217-234 | obj_create adds exactly one fresh node with the obj_create layout; nothing else changes |
| ObjTree.Runtime.IncRef | src/obj_tree.c:130-133 | obj_inc_ref increments p's count, wrapping; NULL changes nothing |
| ObjTree.Runtime.DecRef | src/obj_tree.c:135-140 | when the node is not freed, only its count drops by one, wrapping; when it is freed, the node is gone and its resolved destructor is called first |
| ObjTree.Runtime.ReleaseCounted | src/obj_tree.c:135-140 | one release in a destructor loop adds exactly one count to the released multiset, stated when no release in the loop frees a node |
| ObjTree.Runtime.Free | src/obj_tree.c:266-272 | obj_free does nothing while the count is above 0; otherwise the node is removed after its destructor is called |
| ObjTree.Runtime.Deallocate | src/obj_tree.c:271 | the node leaves the heap and nothing else changes |
| ObjTree.Runtime.Reset | src/obj_tree.c:254-264 | obj_reset calls the resolved destructor; without one, it frees an owned payload (data_size to 0); either way data ends up NULL |
| ObjTree.Runtime.SetPayload | src/obj_helper.cpp:24 | a payload store changes that node's data and nothing else |
| ObjTree.Runtime.CallDestructor | src/obj_tree.c:258 | a destructor call only changes counts and keeps the node; any payload other than the two container closures changes nothing; destruct_map and destruct_array give their exact results when no release frees a node |
| ObjTree.Runtime.DestructMap | src/obj_helper.cpp:28-36 | destruct_map releases the value of every entry exactly once; the result is exact whenever the releases free nothing |
| ObjTree.Runtime.DestructArray | src/obj_helper.cpp:38-46 | destruct_array releases every element exactly once; the result is exact whenever the releases free nothing |
| ObjTree.Runtime.ReleaseEach | src/obj_helper.cpp:41-43 | the loop over the vector releases each element once |
| ObjTree.Runtime.ClearAttr | src/obj_tree.c:236-252 | obj_clear_attr releases exactly the values in buckets 0 to 3 and empties the map |
| ObjTree.Runtime.ReleaseBuckets | src/obj_tree.c:239-246 | the outer loop releases the chains of buckets 0 to n - 1; exact when no release frees a node |
| ObjTree.Runtime.ReleaseChain | src/obj_tree.c:241-245 | the chain loop releases each item's value once; exact when no release frees a node |
| ObjTree.Runtime.AddAttrInternal | src/obj_tree.c:98-113 | the item is prepended to the target map and the value counted once more; a dangling target changes nothing |
| ObjTree.Runtime.AddAttr | src/obj_tree.c:284-288 | NULL for the object or the value changes nothing; otherwise the attribute is added and the value counted |
| ObjTree.Runtime.SetType | src/obj_tree.c:278-282 | after obj_set_type, obj_get_type returns the new type, which is counted once more; NULL changes nothing |
| ObjTree.Runtime.GetAttr | src/obj_tree.c:290-293 | obj_get_attr returns NULL for NULL; whatever it returns is stored under the key |
| ObjTree.Runtime.CreateChar32String | src/obj_tree.c:30-37 | the new node's payload is a copy of the string and its terminator, `4 * (len + 1)` bytes aligned to 4 |
| ObjTree.Runtime.ProbeAt | src/obj_tree.c:165-168 | one iteration agrees with the probe specification |
| ObjTree.Runtime.ProbeLoop | src/obj_tree.c:120-125 | the while loop computes ProbeFrom from the start key |
| ObjTree.Runtime.AddInternedString | src/obj_tree.c:170-176 | a new string node, typed as a string, is added at the vacant key, and the probe then finds it |
| ObjTree.Runtime.HashStringIntern | src/obj_tree.c:161-177 | the key is the probe's outcome from the string's hash; the heap changes only on a vacant key, where the string is interned and then found |
| ObjTree.Runtime.HashInternal | src/obj_tree.c:115-128 | the node is hashed and probed for; on a vacant key the node itself is added and then found |
| ObjTree.Runtime.KeyHash | src/obj_tree.c:154-159 | 0 exactly when no hash closure resolves; otherwise the interned key with the flag set |
| ObjTree.Runtime.AllocateKeyMap | src/obj_tree.c:182 | the key map is allocated and empty |
| ObjTree.Runtime.MakeTypeNode | src/obj_tree.c:199-203 | the type-key node holds its key and is registered in the key map under it |
| ObjTree.Runtime.Bootstrap | src/obj_tree.c:181-211 | the bootstrap leaves the key map with only the type key, plus the heap BootstrapHeap describes |
| ObjTree.Runtime.InitDestructKey | src/obj_tree.c:213 | the destructor key is its name's hash; the key map then holds exactly the type key and the destructor key |
| ObjTree.Runtime.InitKeyMap | src/obj_tree.c:179-215 | obj_init_key_map sets the well-known keys to their string hashes and leaves the table Initialised describes |
| Containers.RemoveAt | src/obj_helper.cpp:225 | `vec.erase(begin + i)`: one shorter, earlier elements kept, later ones shifted down, and a permutation of the rest |
| Containers.SizeOf | src/obj_helper.cpp:174-187 | size() on a null handle is undefined behaviour; a non-zero size() is the length of the node's vector or map |
| Containers.SizeOfIntendedGuardsNull | src/obj_helper.cpp:176 | the written size() is undefined on a null handle; the guarded one returns 0 there and agrees elsewhere |
| Containers.CopyThenDrop | src/obj_helper.h:32-38 | constructing a handle from a pointer and then destroying it restores the counts, unless the node was uncounted, in which case it is freed |
| Containers.SizeAfterPushBack | src/obj_helper.cpp:209-216 | push_back grows size() by one |
| Containers.SizeAfterEraseAt | src/obj_helper.cpp:218-226 | erase(index) in range shrinks size() by one |
| Containers.SizeAfterInsert | src/obj_helper.cpp:126-136 | inserting a new key into a map grows size() by one |
| ComObjects.ComEntry | src/obj_helper.h:84 | `type_db[IUnknown_Packer]` inserts a null entry when it is missing and leaves every other entry alone |
| ComObjects.ComEntryIdempotent | src/obj_helper.h:84 | a second lookup leaves type_db as the first one left it |
| ComObjects.UnregisteredComMatchesUntyped | src/obj_helper.h:84 | before registration, an object counts as a COM object exactly when it is untyped |
| ComObjects.PackedIsCom | src/obj_helper.cpp:117-124 | a packed node counts as a COM object exactly when the IUnknown_Packer entry is NULL or live |
| TypeMaps.ArrayTypeGetsDestructMap | src/obj_helper.cpp:74-80 | the array type's destructor is the destruct_map closure; the destruct_array closure is counted by nothing |
| TypeMaps.IntendedTypesGetOwnDestructors | src/obj_helper.cpp:74-80 | with the corrected statement, each container type resolves its own destructor, counted once |
| TypeMaps.StagedKeys | src/obj_helper.cpp:48-80 | the type-map stages add exactly six new nodes |
| TypeMaps.StagedMaps | src/obj_helper.cpp:51-68 | the root and types maps after the stages |
| TypeMaps.StagedTypes | src/obj_helper.cpp:62-72 | the map type and array type after the stages |
| TypeMaps.StagedClosures | src/obj_helper.cpp:74-80 | the two destructor closures after the stages |
| TypeRegistry.RegisterSteps | src/obj_helper.h:101-124 | the steps of type_register compose into the heap TypeRegistered describes |
| TypeRegistry.RegisterTypeMap | src/obj_helper.h:118-121 | the new type map is counted by the handle, by the types map when the name is new, and by type_db when T is new |
| TypeSystemSetup.InitReady | src/obj_tree.c:179-215 | after obj_init_key_map, the key map has buckets and the string type is live |
| TypeSystemSetup.TypeNameVacantAfterInit | src/obj_helper.cpp:82 | after init, the "@object.type_name" key is vacant, whatever nodes are added later |
| TypeSystemSetup.InitThenTypeSystem | easy_direct_composition.h:67-70 | obj_init_key_map followed by TypeSystemInit: interning "@object.type_name" returns its own hash instead of spinning, the COM_IUnknown type map is the fifteenth node made, and seventeen nodes are made in all |
| TypeSystemSetup.ComNotBuiltIn | src/obj_helper.cpp:55-71 | "COM_IUnknown" is not among the built-in type names |
| TypeSystemSetup.InternedTypesMap | src/obj_helper.cpp:82-85 | at registration, the types map is typed by the map type and lacks "COM_IUnknown", so the insert takes place |
| TypeSystemSetup.RegisteredMapKept | src/obj_helper.cpp:85 | dropping type_register's returned handle does not free the new type map |
| EasyObject.Replace | src/obj_helper.cpp:158-160 | set's tail: the old value is released, the new one stored and counted |
| EasyObject.ReplaceAt | src/obj_helper.cpp:204-206 | set(index)'s tail: the old element is released, the new one stored and counted |
| EasyObject.MakeTyped | src/obj_helper.cpp:88-101 | make_map and make_array: one new typed container, counted once by the handle |
| EasyObject.MakeString | src/obj_helper.cpp:103-108 | make_char32_string: one new string node, typed, counted once |
| EasyObject.MapInsert | src/obj_helper.cpp:126-136 | the insert succeeds exactly when the key is absent; on success the value is stored, counted and found by lookup |
| EasyObject.FreshContainer | src/obj_helper.cpp:88-101 | a fresh container has its type as its only attribute, a count of 1 and size() 0 |
| EasyObject.FreshString | src/obj_helper.cpp:103-108 | a fresh string holds its argument's text and is typed with the string type |
| EasyObject.RootMapsStage | src/obj_helper.cpp:51-60 | the root and types maps with their entries and counts |
| EasyObject.MapTypeStage | src/obj_helper.cpp:62-68 | the self-typed map type and its counts |
| EasyObject.ArrayTypeStage | src/obj_helper.cpp:70-72 | the array type, typed by the map type and entered in the types map |
| EasyObject.DestructorsStage | src/obj_helper.cpp:74-80 | the destructor closures, with destruct_map attached to both types |
| EasyObject.TypeSystem.constructor | src/obj_helper.cpp:9-14 | the statics at program start: null handles, a zero type_name_key and an empty type_db |
| EasyObject.TypeSystem.MakeMap | src/obj_helper.cpp:88-93 | a new empty map typed by the map type, held by the handle |
| EasyObject.TypeSystem.MakeArray | src/obj_helper.cpp:95-101 | a new empty vector typed by the array type, held by the handle |
| EasyObject.TypeSystem.MakeChar32String | src/obj_helper.cpp:103-108 | a copy of the string typed with the string type, held by the handle |
| EasyObject.TypeSystem.MakeRaw | src/obj_helper.cpp:110-115 | the first copy_size bytes, untyped, counted once; no payload when copy_size is 0 |
| EasyObject.TypeSystem.BuildTypeMaps | src/obj_helper.cpp:50-80 | the statics point at the four new maps, and the heap is as TypeMapsMade describes |
| EasyObject.TypeSystem.TypeRegister | src/obj_helper.h:101-124 | three new nodes; type_db gains T only when it is new (`insert` does not overwrite) |
| EasyObject.TypeSystem.PackComObject | src/obj_helper.cpp:117-124 | one new node holding the IUnknown*, typed with the looked-up entry; type_db gains a null entry when it was missing |
| EasyObject.TypeSystem.TypeSystemInit | src/obj_helper.cpp:48-86 | nothing happens once the root exists; otherwise the statics and heap are as InitNodesMade describes |
| EasyObject.TypeSystem.SetStatics | src/obj_helper.cpp:51-85 | the stores into the statics |
| EasyObject.Initialize | easy_direct_composition.h:67-70 | initialize(): type_name_key is its string hash, and type_db maps IUnknown_Packer to the new COM_IUnknown type map |
| EasyObject.Handle.Null | src/obj_helper.h:31 | the default constructor makes a null handle |
| EasyObject.Handle.FromPtr | src/obj_helper.h:38 | the constructor holds the pointer and counts it once |
| EasyObject.Handle.Copy | src/obj_helper.h:39 | the copy constructor holds the other pointer and counts it once |
| EasyObject.Handle.Move | src/obj_helper.h:40 | the move constructor takes the pointer, nulls the source, and changes no count |
| EasyObject.Handle.IsComObject | src/obj_helper.h:84 | false for a null handle, without touching type_db; otherwise whether the type is the (inserted-if-missing) IUnknown_Packer entry |
| EasyObject.Handle.GetComInterface | src/obj_helper.h:126-133 | E_FAIL exactly when the object is null or not a COM object; otherwise the query goes through the stored IUnknown* |
| EasyObject.Handle.Assign | src/obj_helper.h:41-54 | self-assignment changes nothing; otherwise the old pointer is released once and the new one held and counted |
| EasyObject.Handle.Drop | src/obj_helper.h:32-37 | the destructor releases the held pointer once |
| EasyObject.Handle.Insert | src/obj_helper.cpp:126-136 | true exactly when the map lacked the key; then the entry is stored and the value counted once |
| EasyObject.Handle.Get | src/obj_helper.cpp:138-146 | a handle on the stored value, counted once; NULL for a null handle or an absent key; the map is unchanged |
| EasyObject.Handle.Set | src/obj_helper.cpp:148-161 | an absent key is inserted; otherwise the old value is released and the new one stored and counted; no other entry changes |
| EasyObject.Handle.Erase | src/obj_helper.cpp:163-172 | the key's value is released and the entry removed; nothing happens for a null handle or an absent key |
| EasyObject.Handle.GetAt | src/obj_helper.cpp:189-196 | a handle on the element, counted once; NULL out of range |
| EasyObject.Handle.SetAt | src/obj_helper.cpp:198-207 | nothing out of range; otherwise the old element is released and the new one stored and counted |
| EasyObject.Handle.PushBack | src/obj_helper.cpp:209-216 | the value is appended and counted once |
| EasyObject.Handle.EraseAt | src/obj_helper.cpp:218-226 | nothing out of range; otherwise the element is released and removed, and later elements shift down |

### Definitions

These members model source functions directly, by their bodies alone. They carry no contract of their own; the rows above state their properties.

- `Words.WrapInc`, `Words.WrapDec` (src/obj_tree.c:132, src/obj_tree.c:137): `ref_count++` and `ref_count--` on a `size_t`, wrapping at 2^64.
- `HashFold.FoldFrom` (src/obj_tree.c:47-50): the `h * 31 + c` loop of hash_char32_append, wrapping at 2^64.
- `Char32String.HashString` (src/obj_tree.c:55-57): hash_char32_string, hash_char32_append from 0.
- `AttrMap.ChainFind` (src/obj_tree.c:88-95): the chain walk of obj_get_attr_internal.
- `AttrIter.End` (src/obj_tree.c:303-309): obj_attr_iter_end, bucket index `1 << bucket_count_log2` and a NULL item.
- `AttrIter.EndIntended` (src/obj_tree.c:303-309): the corrected end, equal to begin on unallocated buckets.
- `ObjNode.NewNode` (src/obj_tree.c:217-234): the node obj_create initialises.
- `ObjNode.TypeOf` (src/obj_tree.c:274-276): obj_get_type, the attribute under OBJ_TYPE_KEY.
- `ObjNode.DataPointer` (src/obj_tree.c:144-150): the `->data` of the attribute value obj_query_method returns.
- `ObjNode.ApplyHash` (src/obj_tree.c:154-158): calling the resolved hash closure on the object.
- `ObjNode.ApplyCompareEq` (src/obj_tree.c:119-124): calling the resolved equality closure on two objects.
- `Interning.Inspect` (src/obj_tree.c:119-124): what one probed entry is to the seeker: equal, unequal, of another type, or undefined.
- `Interning.ProbeFrom` (src/obj_tree.c:115-128): the probe loop shared by obj_attr_hash_internal and obj_attr_hash_string, as written.
- `Interning.ProbePastMismatch` (src/obj_tree.c:121): the probe loop with the corrected `continue`.
- `ObjTree.Retained`, `ObjTree.Released` (src/obj_tree.c:130-139): the heap after one obj_inc_ref, and after one obj_dec_ref that frees nothing.
- `ObjTree.ClearedCounts` (src/obj_tree.c:239-245): the values obj_clear_attr releases, those in buckets 0 to 3.
- `ObjTree.AllBucketCounts` (src/obj_tree.c:239-245): the values a clear over all 16 buckets would release.
- `Containers.MapEntries`, `Containers.VectorItems` (src/obj_helper.cpp:142, src/obj_helper.cpp:193): `(Map_Data*)obj->data` and `(Vector_Data*)obj->data`.
- `Containers.Lookup` (src/obj_helper.cpp:143): `map->find(key)`, the stored pointer or NULL.
- `Containers.SizeOfIntended` (src/obj_helper.cpp:174-187): size() with a null guard in front.
- `ComObjects.IsCom` (src/obj_helper.h:84): is_COM_object, whether the object's type is the `type_db[IUnknown_Packer]` entry.
- `EasyObject.Handle.IsNull` (src/obj_helper.h:58): is_null, the held pointer is NULL.

## Left out

- Foreign COM calls (`IUnknown::AddRef`, `QueryInterface`, `Release`) are outside the store. PackComObject stores the pointer and does not model AddRef. GetComInterface returns `QueriedThrough(unk)` in place of the HRESULT that QueryInterface would return.
- `has_COM_interface` (src/obj_helper.cpp:233-244) is not modelled. Past the same two guards as get_COM_interface, its answer depends only on the foreign QueryInterface and Release calls.
- `obj_str32_to_utf8` (src/obj_tree.c:338-371) is not modelled. It is UTF-32 to UTF-8 transcoding through `c32rtomb`.
- EasyObject.TypeSystem.TypeRegister: takes the UTF-8 name as a parameter (`utf8Name`), with no constraint linking it to the UTF-32 name. The `assert(utf8_name)` failure path is not modelled.
- `obj_debug_set_allocator` and `obj_debug_add_tag` (src/obj_tree.c:373-382) are not modelled. They swap the allocator and record a debug tag pointer. Neither affects the store's logic.
- Trivial accessors are not given members of their own: `get_ptr`, `get_data_ptr`, `get_root`, `get_map_data`, `operator[]` (the same as `get`), `obj_get_char32_string_type` and `set_type` (which is `obj_set_type`). Their effect appears inside the members that use them.
- The type_register destructor lambda (src/obj_helper.h:108-115) runs `T`'s C++ destructor. The model records only that the lambda is stored in a node's data pointer.
- ObjTree.Runtime.Create: allocation always succeeds. The NULL returns of obj_create (src/obj_tree.c:222-223), of init_hash_map's calloc (src/obj_tree.c:40-41) and of the new string in obj_attr_hash_string (src/obj_tree.c:170-171) are not modelled.
- ObjTree.Runtime.AddAttrInternal: the item's malloc always succeeds. The failure path, where only the buckets are allocated, is stated on values by AttrMap.AddWithoutItem and AttrMap.GetAfterFailedAdd, but the runtime never takes it.
- ObjTree.Runtime.HashStringIntern: the `return 0` after a failed obj_create (src/obj_tree.c:171) is not modelled.
- ObjTree.Runtime.AllocateKeyMap: the calloc failure of init_hash_map is not modelled.
- ObjTree.Runtime.IncRef: a dangling pointer (a node already freed) is undefined behaviour in C and changes nothing here.
- ObjTree.Runtime.DecRef: a dangling pointer changes nothing here (undefined behaviour in C). The `tearingDown` set keeps a node from being freed a second time if its count wraps back to 0 during its own teardown, which needs 2^64 releases; the C code has no such guard and would double-free.
- ObjTree.Runtime.CallDestructor: only the destruct_map and destruct_array closures do anything. A destructor whose payload is anything else is a no-op here. That includes the type_register lambda, which the C code reaches through `->func` (src/obj_tree.c:258) on a data pointer that is the function itself (src/obj_helper.h:117), which is undefined behaviour.
- ObjTree.Runtime.DestructMap: on a payload that is not a Map_Data (such as the Vector_Data of an array, which gets destruct_map through src/obj_helper.cpp:80), the C code reinterprets the vector as a map, which is undefined behaviour. The model releases nothing, so freeing an array releases none of its elements.
- ObjTree.Runtime.DecRef: when the release frees the node, the contract says only that the node is gone, that the other nodes changed in count alone, and which destructor was called first. Which further nodes the cascade frees, and by how much each survivor's count drops, is not stated.
- ObjTree.Runtime.Free: same limit as DecRef when the count is 0. The cascade of frees is not described.
- ObjTree.Runtime.DestructMap: the heap afterwards is exact only when none of the releases frees a node (`Survives`). Otherwise the contract says only that nothing but counts changed.
- ObjTree.Runtime.DestructArray: exact only when no release frees a node, as for DestructMap.
- ObjTree.Runtime.ReleaseEach: exact only when no release frees a node, as for DestructMap.
- ObjTree.Runtime.ClearAttr: exact only when no release frees a node, as for DestructMap.
- ObjTree.Runtime.ReleaseCounted: the heap after the release is stated exactly only when the caller's `survive` flag holds, that is when no release in the loop frees a node. Otherwise only a counts-only change is stated.
- ObjTree.Runtime.ReleaseBuckets: exact only when no release frees a node (`Survives`), as for DestructMap.
- ObjTree.Runtime.ReleaseChain: exact only when no release frees a node (`survive`), as for DestructMap.
- ObjTree.Runtime.CallDestructor: when the destruct_map or destruct_array closure runs, its exact result is passed on only when no release frees a node, as for DestructMap and DestructArray.
- ObjTree.Runtime.HashStringIntern: the `assert(obj_key_map.buckets)` at src/obj_tree.c:162 is a `requires`. The same holds for ObjTree.Runtime.HashInternal (src/obj_tree.c:117), and for EasyObject.TypeSystem.TypeSystemInit, which reaches it through obj_attr_hash_string. With NDEBUG, the C lookups on the unallocated key map return NULL, so the probe stops at once at the hash. obj_add_attr_internal then allocates the key map and adds the entry there. The model does not cover a call made before obj_init_key_map.
- EasyObject.Replace: when releasing the old value frees it, only the map's new entries are stated. If the release freed the map itself, the store into it is undefined behaviour, and here it returns early.
- EasyObject.ReplaceAt: when releasing the old element frees it, only the vector's new items are stated. A vector freed by that release ends the method, undefined behaviour in C.
- EasyObject.Handle.Assign: when releasing the old pointer frees it, only its removal is stated, not the cascade.
- EasyObject.Handle.Drop: when the release frees the node, only its removal is stated, not the cascade.
- EasyObject.Handle.Set: when the old value's release frees it, only the new entries are stated, not the cascade.
- EasyObject.Handle.Erase: when the value's release frees it, only the new entries are stated, not the cascade. A map freed with it ends the method, undefined behaviour in C.
- EasyObject.Handle.SetAt: when the old element's release frees it, only the new items are stated, not the cascade.
- EasyObject.Handle.EraseAt: when the element's release frees it, only the new items are stated, not the cascade. A vector freed with it ends the method, undefined behaviour in C.
- EasyObject.Handle.Insert: the `assert(obj_get_type(obj) == map_type_obj)` at src/obj_helper.cpp:129 is a `requires`. The same holds for Get, Set and Erase (lines 141, 151, 166), and for GetAt, SetAt, PushBack and EraseAt with the array type (lines 192, 201, 212, 221). With NDEBUG the C code casts whatever payload the node has.
- Char32String.HashAppend: the signed `intptr_t` multiply-and-add in hash_char32_append can overflow, which is undefined behaviour in C. It is modelled as wrap-around modulo 2^64, which is what the compiled code does on two's-complement targets.
- ObjTree.Runtime.HashInternal: a hash or equality closure other than the string ones (the only ones the program installs) is undefined behaviour. The model reports it as `UndefinedBehaviour`.
- ObjTree.Runtime.ProbeLoop: a type mismatch, which the C code answers by re-examining the same key forever, is reported as `Spins` rather than as a loop that never ends.
- Containers.SizeOf: a null handle and a node of the right type with the wrong payload are undefined behaviour and are reported as `UndefinedBehaviour`.
- Concurrency: the store is single-threaded, and nothing guards the statics.

## Behaviour of the code as written

These are behaviours of the source that the model states but does not treat
as defects.

- `obj_dec_ref` (src/obj_tree.c:137) decrements an unsigned count. Releasing a node whose count is already 0 wraps the count to `SIZE_MAX` instead of freeing the node (`Words.WrapDec`, and `ObjTree.Runtime.DecRef` with `Frees`). A node can reach that state only through a caller's extra release, which the library's own handles never make.
- `obj_init_key_map` stores the hash and equality keys straight from the string hash of their names, without interning them (`ObjTree.InitFunctionNamesUnregistered`). A later `obj_attr_hash_string` on either name therefore adds a second node for it. Nothing else in the program relies on those names being interned.

## Findings

| source | as written | input that shows it | evidently intended | confidence | as-written member | corrected member |
|---|---|---|---|---|---|---|
| src/obj_tree.c:239 | obj_clear_attr loops `i < bucket_count_log2` (4), so only buckets 0 to 3 are released | a node whose only attribute is its type: OBJ_TYPE_KEY falls in bucket 9, so the type keeps the count obj_set_type gave it, and it leaks | loop over all `1 << bucket_count_log2` buckets | high, not executed | ObjTree.TypeAttributeNeverReleased | ObjTree.TypeAttributeReleasedByFullClear |
| src/obj_tree.c:166 | `continue` on a type mismatch skips `key++` (also at line 121), so the loop re-examines the same key forever | after obj_init_key_map, `obj_attr_hash_string(U"@object.type")`: its key holds the untyped type-key node | move on to the next key, as for an unequal entry | high, not executed | ObjTree.InitTypeNameSpins | ObjTree.InitTypeNameInternsPastMismatch |
| src/obj_tree.c:318-326 | taking bucket 0's head does not advance `bucket_index`, so the scan later restarts at 0 | any object whose bucket 0 is occupied: the head of bucket 0 is yielded twice | advance past bucket 0 as for every other bucket | high, not executed | AttrIter.FirstBucketVisitedTwice | AttrIter.FirstBucketVisitedOnceIntended |
| src/obj_tree.c:303-309 | obj_attr_iter_end puts `end` at `1 << 0` = 1 when the buckets were never allocated, while `begin` stays at 0 | an object with no attributes: a `begin != end` loop never ends | `end` equal to `begin` on an object without attributes | medium, not executed | AttrIter.UnallocatedBeginNeverReachesEnd | AttrIter.UnallocatedBeginIsEndIntended |
| src/obj_helper.cpp:80 | attaches `destruct_map_obj` to the array type | freeing any array made by make_array runs destruct_map on a Vector_Data, and the destruct_array closure is never referenced | attach `destruct_array_obj` | high, not executed | TypeMaps.ArrayTypeGetsDestructMap | TypeMaps.IntendedTypesGetOwnDestructors |
| src/obj_helper.cpp:176 | size() reads the type before any null check | `Easy_Object().size()` dereferences NULL | return 0 for a null handle, as the other members do | medium, not executed | Containers.SizeOf | Containers.SizeOfIntendedGuardsNull |

The corrected definitions are stated next to the as-written ones, and each
row's corrected member proves the intended property about them. The runtime
methods keep the behaviour as written, so the rest of the model describes
what the source does.
