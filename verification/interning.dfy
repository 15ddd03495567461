/**
 * The probe loops of the global key-interning table (obj_attr_hash_string and
 * obj_attr_hash_internal) as a specification: starting from the hash, each key
 * is looked up in the key map until an equal entry or an empty key is found.
 */
module Interning {
  import opened Wrappers
  import opened Words
  import opened Char32String
  import opened AttrMap
  import opened ObjNode

  /** What the probe loops read: the key map, the live nodes, OBJ_TYPE_KEY and the string type. */
  datatype KeyTable = KeyTable(keyMap: HashMap, nodes: Heap, typeKey: Key, stringType: Ptr)
  {
    ghost predicate Valid()
    {
      keyMap.Valid() && AttrsValid(nodes)
    }
  }

  /** What is being interned. */
  datatype Seeker =
    | StringSeeker(buf: seq<Char32>)                     // obj_attr_hash_string(buf)
    | NodeSeeker(obj: NodeId, compareEq: Option<Payload>) // obj_attr_hash_internal on obj, with comp_eq_func (None: NULL)

  /** How one step of the loop judges the entry stored at the current key. */
  datatype Verdict = Equal | Unequal | TypeMismatch | Broken

  /** How the loop ends. */
  datatype Probe =
    | Found(key: Key)  // an equal entry is stored at key
    | Vacant(key: Key) // key is the first free key: the loop exits to add the new entry there
    | Spins            // the loop never ends
    | Undefined        // the loop reaches undefined behaviour (a dangling entry, a payload of the wrong shape)

  /**
   * One iteration of the loop body on the entry `cur`: a type different from
   * the seeker's leads to `continue` without `key++`; otherwise the string
   * comparison, or identity and then the equality closure, decide.
   */
  function Inspect(t: KeyTable, s: Seeker, cur: NodeId): Verdict
    requires t.Valid()
  {
    if cur !in t.nodes then Broken
    else
      match s
      case StringSeeker(buf) =>
        if TypeOf(t.nodes, t.typeKey, cur) != t.stringType then TypeMismatch
        else
          (match t.nodes[cur].data
           case Str(b) =>
             if !Terminated(buf, 0) || !Terminated(b, 0) then Broken
             else if CompareEq(buf, b, 0) == 1 then Equal
             else Unequal
           case _ => Broken)
      case NodeSeeker(obj, eq) =>
        if obj !in t.nodes then Broken
        else if TypeOf(t.nodes, t.typeKey, cur) != TypeOf(t.nodes, t.typeKey, obj) then TypeMismatch
        else if cur == obj then Equal
        else if eq.None? then Unequal
        else
          match ApplyCompareEq(eq.value, t.nodes[obj].data, t.nodes[cur].data)
          case None => Broken
          case Some(same) => if same then Equal else Unequal
  }

  /**
   * The loop from the i-th key after `start` on (keys wrap at 2^64).  A type
   * mismatch makes the loop re-examine the same key for ever; so does a table
   * in which every one of the 2^64 keys holds an unequal entry.
   */
  function ProbeFrom(t: KeyTable, s: Seeker, start: Key, i: nat): Probe
    requires t.Valid() && i <= WORD_MODULUS
    decreases WORD_MODULUS - i
  {
    if i == WORD_MODULUS then Spins
    else
      var key := (start + i) % WORD_MODULUS;
      match Get(t.keyMap, key)
      case None => Vacant(key)
      case Some(cur) =>
        match Inspect(t, s, cur)
        case Equal => Found(key)
        case Unequal => ProbeFrom(t, s, start, i + 1)
        case TypeMismatch => Spins
        case Broken => Undefined
  }

  /** A probe that finds a key stops at an entry the seeker judges equal. */
  lemma {:induction false} FoundIsEqualEntry(t: KeyTable, s: Seeker, start: Key, i: nat, k: Key)
    requires t.Valid() && i <= WORD_MODULUS && ProbeFrom(t, s, start, i) == Found(k)
    ensures Get(t.keyMap, k).Some? && Inspect(t, s, Get(t.keyMap, k).value) == Equal
    decreases WORD_MODULUS - i
  {
    assert i < WORD_MODULUS;
    match Get(t.keyMap, (start + i) % WORD_MODULUS)
    case None =>
    case Some(cur) =>
      ProbeStepOn(t, s, start, i, cur);
      if Inspect(t, s, cur) == Unequal {
        FoundIsEqualEntry(t, s, start, i + 1, k);
      } else {
        assert k == (start + i) % WORD_MODULUS;
      }
  }

  /** A probe that ends on a vacant key ends on a key the map does not hold. */
  lemma {:induction false} VacantIsFree(t: KeyTable, s: Seeker, start: Key, i: nat, k: Key)
    requires t.Valid() && i <= WORD_MODULUS && ProbeFrom(t, s, start, i) == Vacant(k)
    ensures Get(t.keyMap, k).None?
    decreases WORD_MODULUS - i
  {
    assert i < WORD_MODULUS;
    match Get(t.keyMap, (start + i) % WORD_MODULUS)
    case None =>
    case Some(cur) =>
      ProbeStepOn(t, s, start, i, cur);
      VacantIsFree(t, s, start, i + 1, k);
  }

  /**
   * The table `u` keeps every node of `t` with the same attributes and
   * payload (reference counts may differ), and the same type key and string type.
   */
  ghost predicate Extends(t: KeyTable, u: KeyTable)
  {
    && u.typeKey == t.typeKey
    && u.stringType == t.stringType
    && forall id :: id in t.nodes ==>
         id in u.nodes && u.nodes[id].attrs == t.nodes[id].attrs && u.nodes[id].data == t.nodes[id].data
  }

  lemma InspectStable(t: KeyTable, u: KeyTable, s: Seeker, cur: NodeId)
    requires t.Valid() && u.Valid() && Extends(t, u) && cur in t.nodes
    requires s.NodeSeeker? ==> s.obj in t.nodes
    ensures Inspect(u, s, cur) == Inspect(t, s, cur)
  {
  }

  /** One iteration of the loop, as the cases the lemmas below need. */
  lemma ProbeStep(t: KeyTable, s: Seeker, start: Key, i: nat)
    requires t.Valid() && i < WORD_MODULUS
    ensures var key := (start + i) % WORD_MODULUS;
            && (Get(t.keyMap, key).None? ==> ProbeFrom(t, s, start, i) == Vacant(key))
            && (Get(t.keyMap, key).Some? && Inspect(t, s, Get(t.keyMap, key).value) == Equal ==>
                  ProbeFrom(t, s, start, i) == Found(key))
            && (Get(t.keyMap, key).Some? && Inspect(t, s, Get(t.keyMap, key).value) == Unequal ==>
                  ProbeFrom(t, s, start, i) == ProbeFrom(t, s, start, i + 1))
            && (Get(t.keyMap, key).Some? && ProbeFrom(t, s, start, i).Vacant? ==>
                  Inspect(t, s, Get(t.keyMap, key).value) == Unequal
                  && ProbeFrom(t, s, start, i) == ProbeFrom(t, s, start, i + 1))
  {
  }

  /** Iteration i of the loop on an occupied key: the entry's verdict decides. */
  lemma ProbeStepOn(t: KeyTable, s: Seeker, start: Key, i: nat, cur: NodeId)
    requires t.Valid() && i < WORD_MODULUS && Get(t.keyMap, (start + i) % WORD_MODULUS) == Some(cur)
    ensures ProbeFrom(t, s, start, i) == match Inspect(t, s, cur)
                                         case Equal => Found((start + i) % WORD_MODULUS)
                                         case Unequal => ProbeFrom(t, s, start, i + 1)
                                         case TypeMismatch => Spins
                                         case Broken => Undefined
  {
  }

  /** The iterations of the loop that end it without a key. */
  lemma ProbeStepStuck(t: KeyTable, s: Seeker, start: Key, i: nat)
    requires t.Valid() && i < WORD_MODULUS
    ensures var key := (start + i) % WORD_MODULUS;
            && (Get(t.keyMap, key).Some? && Inspect(t, s, Get(t.keyMap, key).value) == TypeMismatch ==>
                  ProbeFrom(t, s, start, i) == Spins)
            && (Get(t.keyMap, key).Some? && Inspect(t, s, Get(t.keyMap, key).value) == Broken ==>
                  ProbeFrom(t, s, start, i) == Undefined)
  {
  }

  /**
   * Interning is idempotent: once the entry has been added at the vacant key
   * the probe ended on, the same probe finds that key.  Every key it passes
   * on the way still holds the same unequal entry.
   */
  lemma {:induction false} ReprobeFindsInsertion(t: KeyTable, u: KeyTable, s: Seeker, start: Key, i: nat, k: Key, n: NodeId)
    requires t.Valid() && u.Valid() && i <= WORD_MODULUS
    requires ProbeFrom(t, s, start, i) == Vacant(k)
    requires u.keyMap == Add(t.keyMap, k, n)
    requires Extends(t, u) && (s.NodeSeeker? ==> s.obj in t.nodes)
    requires Inspect(u, s, n) == Equal
    ensures ProbeFrom(u, s, start, i) == Found(k)
    decreases WORD_MODULUS - i
  {
    assert i < WORD_MODULUS;
    var key := (start + i) % WORD_MODULUS;
    ProbeStep(t, s, start, i);
    ProbeStep(u, s, start, i);
    GetAfterAdd(t.keyMap, k, n, key);
    if Get(t.keyMap, key).Some? {
      var cur := Get(t.keyMap, key).value;
      VacantIsFree(t, s, start, i, k);
      InspectStable(t, u, s, cur);
      ReprobeFindsInsertion(t, u, s, start, i + 1, k, n);
    }
  }

  /**
   * The hash-consing guarantee: two strings that the string probe resolves to
   * the same key in the same table are equal.
   */
  lemma SameKeySameString(t: KeyTable, a: seq<Char32>, b: seq<Char32>, startA: Key, startB: Key, k: Key)
    requires t.Valid()
    requires ProbeFrom(t, StringSeeker(a), startA, 0) == Found(k)
    requires ProbeFrom(t, StringSeeker(b), startB, 0) == Found(k)
    ensures Terminated(a, 0) && Terminated(b, 0) && Text(a) == Text(b)
  {
    FoundIsEqualEntry(t, StringSeeker(a), startA, 0, k);
    FoundIsEqualEntry(t, StringSeeker(b), startB, 0, k);
    var stored := t.nodes[Get(t.keyMap, k).value].data.buf;
    CompareEqIsTextEquality(a, stored, 0);
    CompareEqIsTextEquality(b, stored, 0);
  }

  /** The string probe judges every entry by the string the buffer holds, not by the rest of the buffer. */
  lemma InspectSameText(t: KeyTable, a: seq<Char32>, b: seq<Char32>, cur: NodeId)
    requires t.Valid() && Terminated(a, 0) && Terminated(b, 0) && Text(a) == Text(b)
    ensures Inspect(t, StringSeeker(a), cur) == Inspect(t, StringSeeker(b), cur)
  {
    if cur in t.nodes && t.nodes[cur].data.Str? && Terminated(t.nodes[cur].data.buf, 0) {
      CompareEqIsTextEquality(a, t.nodes[cur].data.buf, 0);
      CompareEqIsTextEquality(b, t.nodes[cur].data.buf, 0);
    }
  }

  /** Two buffers holding the same string probe alike from the same start. */
  lemma {:induction false} ProbeSameText(t: KeyTable, a: seq<Char32>, b: seq<Char32>, start: Key, i: nat)
    requires t.Valid() && i <= WORD_MODULUS && Terminated(a, 0) && Terminated(b, 0) && Text(a) == Text(b)
    ensures ProbeFrom(t, StringSeeker(a), start, i) == ProbeFrom(t, StringSeeker(b), start, i)
    decreases WORD_MODULUS - i
  {
    if i < WORD_MODULUS {
      var key := (start + i) % WORD_MODULUS;
      match Get(t.keyMap, key)
      case None =>
      case Some(cur) =>
        InspectSameText(t, a, b, cur);
        ProbeStepOn(t, StringSeeker(a), start, i, cur);
        ProbeStepOn(t, StringSeeker(b), start, i, cur);
        ProbeSameText(t, a, b, start, i + 1);
    }
  }

  /**
   * The probe loop as evidently intended: an entry of another type is passed
   * over like an unequal one, so the loop moves on to the next key instead
   * of re-examining the same one.
   */
  function ProbePastMismatch(t: KeyTable, s: Seeker, start: Key, i: nat): Probe
    requires t.Valid() && i <= WORD_MODULUS
    decreases WORD_MODULUS - i
  {
    if i == WORD_MODULUS then Spins
    else
      var key := (start + i) % WORD_MODULUS;
      match Get(t.keyMap, key)
      case None => Vacant(key)
      case Some(cur) =>
        match Inspect(t, s, cur)
        case Equal => Found(key)
        case Unequal => ProbePastMismatch(t, s, start, i + 1)
        case TypeMismatch => ProbePastMismatch(t, s, start, i + 1)
        case Broken => Undefined
  }

  /** Iteration i of the intended loop on an occupied key. */
  lemma PastMismatchStepOn(t: KeyTable, s: Seeker, start: Key, i: nat, cur: NodeId)
    requires t.Valid() && i < WORD_MODULUS && Get(t.keyMap, (start + i) % WORD_MODULUS) == Some(cur)
    ensures ProbePastMismatch(t, s, start, i) == match Inspect(t, s, cur)
                                                 case Equal => Found((start + i) % WORD_MODULUS)
                                                 case Broken => Undefined
                                                 case _ => ProbePastMismatch(t, s, start, i + 1)
  {
  }

  /** The key `j` steps after `start` holds an entry. */
  ghost predicate Occupied(t: KeyTable, start: Key, j: nat)
    requires t.Valid()
  {
    Get(t.keyMap, (start + j) % WORD_MODULUS).Some?
  }

  /** The intended loop keeps the guarantee of the written one: a key it finds holds an equal entry. */
  lemma {:induction false} PastMismatchFoundIsEqualEntry(t: KeyTable, s: Seeker, start: Key, i: nat, k: Key)
    requires t.Valid() && i <= WORD_MODULUS && ProbePastMismatch(t, s, start, i) == Found(k)
    ensures Get(t.keyMap, k).Some? && Inspect(t, s, Get(t.keyMap, k).value) == Equal
    decreases WORD_MODULUS - i
  {
    assert i < WORD_MODULUS;
    match Get(t.keyMap, (start + i) % WORD_MODULUS)
    case None =>
    case Some(cur) =>
      PastMismatchStepOn(t, s, start, i, cur);
      if Inspect(t, s, cur) != Equal {
        PastMismatchFoundIsEqualEntry(t, s, start, i + 1, k);
      }
  }

  /** The intended loop, like the written one, stops as vacant only at a free key. */
  lemma {:induction false} PastMismatchVacantIsFree(t: KeyTable, s: Seeker, start: Key, i: nat, k: Key)
    requires t.Valid() && i <= WORD_MODULUS && ProbePastMismatch(t, s, start, i) == Vacant(k)
    ensures Get(t.keyMap, k).None?
    decreases WORD_MODULUS - i
  {
    assert i < WORD_MODULUS;
    match Get(t.keyMap, (start + i) % WORD_MODULUS)
    case None =>
    case Some(cur) =>
      PastMismatchStepOn(t, s, start, i, cur);
      PastMismatchVacantIsFree(t, s, start, i + 1, k);
  }

  /** Iteration i of the intended loop on a free key: it stops there. */
  lemma PastMismatchStepFree(t: KeyTable, s: Seeker, start: Key, i: nat)
    requires t.Valid() && i < WORD_MODULUS && Get(t.keyMap, (start + i) % WORD_MODULUS).None?
    ensures ProbePastMismatch(t, s, start, i) == Vacant((start + i) % WORD_MODULUS)
  {
  }
}
