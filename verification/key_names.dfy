/**
 * The names obj_tree.c and obj_helper.cpp turn into keys, and the keys their
 * hashes give on a 64-bit target.  Each name is held here without its
 * terminator; the buffer the program passes is the name followed by a NUL.
 * The key values follow from the definition of hash_char32_string, evaluated
 * one code unit at a time.
 */
module KeyNames {
  import opened Words
  import opened HashFold
  import opened Char32String
  import opened KeyNameFolds

  /** OBJ_TYPE: the name under which an object's type is stored. */
  const OBJ_TYPE: seq<Char32> := [64, 111, 98, 106, 101, 99, 116, 46, 116, 121, 112, 101]

  /** OBJ_KEY_HASH_FUNCTION: the name of a type's hash closure. */
  const OBJ_KEY_HASH_FUNCTION: seq<Char32> := [64, 111, 98, 106, 101, 99, 116, 46, 104, 97, 115, 104, 95, 102, 117, 110, 99, 116, 105, 111, 110]

  /** OBJ_KEY_COMPARE_EQ_FUNCTION: the name of a type's equality closure. */
  const OBJ_KEY_COMPARE_EQ_FUNCTION: seq<Char32> := [64, 111, 98, 106, 101, 99, 116, 46, 99, 111, 109, 112, 97, 114, 101, 95, 101, 113, 95, 102, 117, 110, 99, 116, 105, 111, 110]

  /** OBJ_DESTRUCT_FUNCTION: the name of a type's destructor closure. */
  const OBJ_DESTRUCT_FUNCTION: seq<Char32> := [64, 111, 98, 106, 101, 99, 116, 46, 100, 101, 115, 116, 114, 117, 99, 116, 95, 102, 117, 110, 99, 116, 105, 111, 110]

  /** The name Easy_Object::TypeSystemInit interns for the attribute holding a registered type's name. */
  const TYPE_NAME: seq<Char32> := [64, 111, 98, 106, 101, 99, 116, 46, 116, 121, 112, 101, 95, 110, 97, 109, 101]

  const TYPE_KEY_VALUE: Key := 0x97ddfa199d96ac49
  const HASH_FUNCTION_KEY_VALUE: Key := 0xf4cf2940588f57ba
  const COMPARE_EQ_FUNCTION_KEY_VALUE: Key := 0xa53ced580076c8c2
  const DESTRUCT_FUNCTION_KEY_VALUE: Key := 0xea840cdb0963adb2
  const TYPE_NAME_KEY_VALUE: Key := 0x9184577d73b4ccc1

  /** None of the names holds a NUL code unit. */
  lemma ObjTypeNulFree()
    ensures NulFree(OBJ_TYPE)
  {
    NoNulUnit(OBJ_TYPE);
  }

  lemma HashFunctionNulFree()
    ensures NulFree(OBJ_KEY_HASH_FUNCTION)
  {
    NoNulUnit(OBJ_KEY_HASH_FUNCTION);
  }

  lemma CompareEqFunctionNulFree()
    ensures NulFree(OBJ_KEY_COMPARE_EQ_FUNCTION)
  {
    NoNulUnit(OBJ_KEY_COMPARE_EQ_FUNCTION);
  }

  lemma DestructFunctionNulFree()
    ensures NulFree(OBJ_DESTRUCT_FUNCTION)
  {
    NoNulUnit(OBJ_DESTRUCT_FUNCTION);
  }

  lemma TypeNameNulFree()
    ensures NulFree(TYPE_NAME)
  {
    NoNulUnit(TYPE_NAME);
  }

  lemma ObjTypeKey()
    ensures NulFree(OBJ_TYPE) && Terminated(OBJ_TYPE + [0], 0) && Text(OBJ_TYPE + [0]) == OBJ_TYPE
    ensures HashString(OBJ_TYPE + [0]) == TYPE_KEY_VALUE
  {
    FoldOfObjType(OBJ_TYPE);
    ObjTypeNulFree();
    HashOfText(OBJ_TYPE);
  }

  lemma HashFunctionKey()
    ensures NulFree(OBJ_KEY_HASH_FUNCTION) && Terminated(OBJ_KEY_HASH_FUNCTION + [0], 0) && Text(OBJ_KEY_HASH_FUNCTION + [0]) == OBJ_KEY_HASH_FUNCTION
    ensures HashString(OBJ_KEY_HASH_FUNCTION + [0]) == HASH_FUNCTION_KEY_VALUE
  {
    FoldOfHashFunction(OBJ_KEY_HASH_FUNCTION);
    HashFunctionNulFree();
    HashOfText(OBJ_KEY_HASH_FUNCTION);
  }

  lemma CompareEqFunctionKey()
    ensures NulFree(OBJ_KEY_COMPARE_EQ_FUNCTION) && Terminated(OBJ_KEY_COMPARE_EQ_FUNCTION + [0], 0) && Text(OBJ_KEY_COMPARE_EQ_FUNCTION + [0]) == OBJ_KEY_COMPARE_EQ_FUNCTION
    ensures HashString(OBJ_KEY_COMPARE_EQ_FUNCTION + [0]) == COMPARE_EQ_FUNCTION_KEY_VALUE
  {
    FoldOfCompareEqFunction(OBJ_KEY_COMPARE_EQ_FUNCTION);
    CompareEqFunctionNulFree();
    HashOfText(OBJ_KEY_COMPARE_EQ_FUNCTION);
  }

  lemma DestructFunctionKey()
    ensures NulFree(OBJ_DESTRUCT_FUNCTION) && Terminated(OBJ_DESTRUCT_FUNCTION + [0], 0) && Text(OBJ_DESTRUCT_FUNCTION + [0]) == OBJ_DESTRUCT_FUNCTION
    ensures HashString(OBJ_DESTRUCT_FUNCTION + [0]) == DESTRUCT_FUNCTION_KEY_VALUE
  {
    FoldOfDestructFunction(OBJ_DESTRUCT_FUNCTION);
    DestructFunctionNulFree();
    HashOfText(OBJ_DESTRUCT_FUNCTION);
  }

  lemma TypeNameKey()
    ensures NulFree(TYPE_NAME) && Terminated(TYPE_NAME + [0], 0) && Text(TYPE_NAME + [0]) == TYPE_NAME
    ensures HashString(TYPE_NAME + [0]) == TYPE_NAME_KEY_VALUE
  {
    FoldOfTypeName(TYPE_NAME);
    TypeNameNulFree();
    HashOfText(TYPE_NAME);
  }

  /**
   * In a 16-bucket map the type key falls in bucket 9, the hash-function
   * key in 10, the equality and destructor keys both in 2 and the type-name
   * key in 1.
   */
  lemma KeyBuckets()
    ensures TYPE_KEY_VALUE % 16 == 9 && HASH_FUNCTION_KEY_VALUE % 16 == 10
    ensures COMPARE_EQ_FUNCTION_KEY_VALUE % 16 == 2 && DESTRUCT_FUNCTION_KEY_VALUE % 16 == 2
    ensures TYPE_NAME_KEY_VALUE % 16 == 1
  {
  }
}

module KeyNameFolds {
  import opened Words
  import opened HashFold

  lemma FoldOfObjType0(t: seq<Char32>)
    requires t == [64, 111, 98, 106, 101, 99, 116, 46, 116, 121, 112, 101]
    ensures FoldFrom(0, t, 0) == FoldFrom(60071834495, t, 7)
  {
    assert t[0] == 64 && (0 * 31 + 64) % WORD_MODULUS == 64;
    assert FoldFrom(0, t, 0) == FoldFrom(64, t, 1);
    assert t[1] == 111 && (64 * 31 + 111) % WORD_MODULUS == 2095;
    assert FoldFrom(64, t, 1) == FoldFrom(2095, t, 2);
    assert t[2] == 98 && (2095 * 31 + 98) % WORD_MODULUS == 65043;
    assert FoldFrom(2095, t, 2) == FoldFrom(65043, t, 3);
    assert t[3] == 106 && (65043 * 31 + 106) % WORD_MODULUS == 2016439;
    assert FoldFrom(65043, t, 3) == FoldFrom(2016439, t, 4);
    assert t[4] == 101 && (2016439 * 31 + 101) % WORD_MODULUS == 62509710;
    assert FoldFrom(2016439, t, 4) == FoldFrom(62509710, t, 5);
    assert t[5] == 99 && (62509710 * 31 + 99) % WORD_MODULUS == 1937801109;
    assert FoldFrom(62509710, t, 5) == FoldFrom(1937801109, t, 6);
    assert t[6] == 116 && (1937801109 * 31 + 116) % WORD_MODULUS == 60071834495;
    assert FoldFrom(1937801109, t, 6) == FoldFrom(60071834495, t, 7);
  }

  lemma FoldOfObjType1(t: seq<Char32>)
    requires t == [64, 111, 98, 106, 101, 99, 116, 46, 116, 121, 112, 101]
    ensures FoldFrom(60071834495, t, 7) == FoldFrom(1719805620650421321, t, 12)
  {
    assert t[7] == 46 && (60071834495 * 31 + 46) % WORD_MODULUS == 1862226869391;
    assert FoldFrom(60071834495, t, 7) == FoldFrom(1862226869391, t, 8);
    assert t[8] == 116 && (1862226869391 * 31 + 116) % WORD_MODULUS == 57729032951237;
    assert FoldFrom(1862226869391, t, 8) == FoldFrom(57729032951237, t, 9);
    assert t[9] == 121 && (57729032951237 * 31 + 121) % WORD_MODULUS == 1789600021488468;
    assert FoldFrom(57729032951237, t, 9) == FoldFrom(1789600021488468, t, 10);
    assert t[10] == 112 && (1789600021488468 * 31 + 112) % WORD_MODULUS == 55477600666142620;
    assert FoldFrom(1789600021488468, t, 10) == FoldFrom(55477600666142620, t, 11);
    assert t[11] == 101 && (55477600666142620 * 31 + 101) % WORD_MODULUS == 1719805620650421321;
    assert FoldFrom(55477600666142620, t, 11) == FoldFrom(1719805620650421321, t, 12);
  }

  lemma FoldOfObjType(t: seq<Char32>)
    requires t == [64, 111, 98, 106, 101, 99, 116, 46, 116, 121, 112, 101]
    ensures FoldFrom(0, t, 0) == 1719805620650421321
  {
    FoldOfObjType0(t);
    FoldOfObjType1(t);
  }

  lemma FoldOfHashFunction0(t: seq<Char32>)
    requires t == [64, 111, 98, 106, 101, 99, 116, 46, 104, 97, 115, 104, 95, 102, 117, 110, 99, 116, 105, 111, 110]
    ensures FoldFrom(0, t, 0) == FoldFrom(60071834495, t, 7)
  {
    assert t[0] == 64 && (0 * 31 + 64) % WORD_MODULUS == 64;
    assert FoldFrom(0, t, 0) == FoldFrom(64, t, 1);
    assert t[1] == 111 && (64 * 31 + 111) % WORD_MODULUS == 2095;
    assert FoldFrom(64, t, 1) == FoldFrom(2095, t, 2);
    assert t[2] == 98 && (2095 * 31 + 98) % WORD_MODULUS == 65043;
    assert FoldFrom(2095, t, 2) == FoldFrom(65043, t, 3);
    assert t[3] == 106 && (65043 * 31 + 106) % WORD_MODULUS == 2016439;
    assert FoldFrom(65043, t, 3) == FoldFrom(2016439, t, 4);
    assert t[4] == 101 && (2016439 * 31 + 101) % WORD_MODULUS == 62509710;
    assert FoldFrom(2016439, t, 4) == FoldFrom(62509710, t, 5);
    assert t[5] == 99 && (62509710 * 31 + 99) % WORD_MODULUS == 1937801109;
    assert FoldFrom(62509710, t, 5) == FoldFrom(1937801109, t, 6);
    assert t[6] == 116 && (1937801109 * 31 + 116) % WORD_MODULUS == 60071834495;
    assert FoldFrom(1937801109, t, 6) == FoldFrom(60071834495, t, 7);
  }

  lemma FoldOfHashFunction1(t: seq<Char32>)
    requires t == [64, 111, 98, 106, 101, 99, 116, 46, 104, 97, 115, 104, 95, 102, 117, 110, 99, 116, 105, 111, 110]
    ensures FoldFrom(60071834495, t, 7) == FoldFrom(10972978884539176644, t, 14)
  {
    assert t[7] == 46 && (60071834495 * 31 + 46) % WORD_MODULUS == 1862226869391;
    assert FoldFrom(60071834495, t, 7) == FoldFrom(1862226869391, t, 8);
    assert t[8] == 104 && (1862226869391 * 31 + 104) % WORD_MODULUS == 57729032951225;
    assert FoldFrom(1862226869391, t, 8) == FoldFrom(57729032951225, t, 9);
    assert t[9] == 97 && (57729032951225 * 31 + 97) % WORD_MODULUS == 1789600021488072;
    assert FoldFrom(57729032951225, t, 9) == FoldFrom(1789600021488072, t, 10);
    assert t[10] == 115 && (1789600021488072 * 31 + 115) % WORD_MODULUS == 55477600666130347;
    assert FoldFrom(1789600021488072, t, 10) == FoldFrom(55477600666130347, t, 11);
    assert t[11] == 104 && (55477600666130347 * 31 + 104) % WORD_MODULUS == 1719805620650040861;
    assert FoldFrom(55477600666130347, t, 11) == FoldFrom(1719805620650040861, t, 12);
    assert t[12] == 95 && (1719805620650040861 * 31 + 95) % WORD_MODULUS == 16420486092732163554;
    assert FoldFrom(1719805620650040861, t, 12) == FoldFrom(16420486092732163554, t, 13);
    assert t[13] == 102 && (16420486092732163554 * 31 + 102) % WORD_MODULUS == 10972978884539176644;
    assert FoldFrom(16420486092732163554, t, 13) == FoldFrom(10972978884539176644, t, 14);
  }

  lemma FoldOfHashFunction2(t: seq<Char32>)
    requires t == [64, 111, 98, 106, 101, 99, 116, 46, 104, 97, 115, 104, 95, 102, 117, 110, 99, 116, 105, 111, 110]
    ensures FoldFrom(10972978884539176644, t, 14) == FoldFrom(17640363621773957050, t, 21)
  {
    assert t[14] == 117 && (10972978884539176644 * 31 + 117) % WORD_MODULUS == 8120952093942546993;
    assert FoldFrom(10972978884539176644, t, 14) == FoldFrom(8120952093942546993, t, 15);
    assert t[15] == 110 && (8120952093942546993 * 31 + 110) % WORD_MODULUS == 11941841953994785885;
    assert FoldFrom(8120952093942546993, t, 15) == FoldFrom(11941841953994785885, t, 16);
    assert t[16] == 99 && (11941841953994785885 * 31 + 99) % WORD_MODULUS == 1262219099647330214;
    assert FoldFrom(11941841953994785885, t, 16) == FoldFrom(1262219099647330214, t, 17);
    assert t[17] == 116 && (1262219099647330214 * 31 + 116) % WORD_MODULUS == 2235303941648133518;
    assert FoldFrom(1262219099647330214, t, 17) == FoldFrom(2235303941648133518, t, 18);
    assert t[18] == 105 && (2235303941648133518 * 31 + 105) % WORD_MODULUS == 13954189969963484315;
    assert FoldFrom(2235303941648133518, t, 18) == FoldFrom(13954189969963484315, t, 19);
    assert t[19] == 111 && (13954189969963484315 * 31 + 111) % WORD_MODULUS == 8304775373548326708;
    assert FoldFrom(13954189969963484315, t, 19) == FoldFrom(8304775373548326708, t, 20);
    assert t[20] == 110 && (8304775373548326708 * 31 + 110) % WORD_MODULUS == 17640363621773957050;
    assert FoldFrom(8304775373548326708, t, 20) == FoldFrom(17640363621773957050, t, 21);
  }

  lemma FoldOfHashFunction(t: seq<Char32>)
    requires t == [64, 111, 98, 106, 101, 99, 116, 46, 104, 97, 115, 104, 95, 102, 117, 110, 99, 116, 105, 111, 110]
    ensures FoldFrom(0, t, 0) == 17640363621773957050
  {
    FoldOfHashFunction0(t);
    FoldOfHashFunction1(t);
    FoldOfHashFunction2(t);
  }

  lemma FoldOfCompareEqFunction0(t: seq<Char32>)
    requires t == [64, 111, 98, 106, 101, 99, 116, 46, 99, 111, 109, 112, 97, 114, 101, 95, 101, 113, 95, 102, 117, 110, 99, 116, 105, 111, 110]
    ensures FoldFrom(0, t, 0) == FoldFrom(60071834495, t, 7)
  {
    assert t[0] == 64 && (0 * 31 + 64) % WORD_MODULUS == 64;
    assert FoldFrom(0, t, 0) == FoldFrom(64, t, 1);
    assert t[1] == 111 && (64 * 31 + 111) % WORD_MODULUS == 2095;
    assert FoldFrom(64, t, 1) == FoldFrom(2095, t, 2);
    assert t[2] == 98 && (2095 * 31 + 98) % WORD_MODULUS == 65043;
    assert FoldFrom(2095, t, 2) == FoldFrom(65043, t, 3);
    assert t[3] == 106 && (65043 * 31 + 106) % WORD_MODULUS == 2016439;
    assert FoldFrom(65043, t, 3) == FoldFrom(2016439, t, 4);
    assert t[4] == 101 && (2016439 * 31 + 101) % WORD_MODULUS == 62509710;
    assert FoldFrom(2016439, t, 4) == FoldFrom(62509710, t, 5);
    assert t[5] == 99 && (62509710 * 31 + 99) % WORD_MODULUS == 1937801109;
    assert FoldFrom(62509710, t, 5) == FoldFrom(1937801109, t, 6);
    assert t[6] == 116 && (1937801109 * 31 + 116) % WORD_MODULUS == 60071834495;
    assert FoldFrom(1937801109, t, 6) == FoldFrom(60071834495, t, 7);
  }

  lemma FoldOfCompareEqFunction1(t: seq<Char32>)
    requires t == [64, 111, 98, 106, 101, 99, 116, 46, 99, 111, 109, 112, 97, 114, 101, 95, 101, 113, 95, 102, 117, 110, 99, 116, 105, 111, 110]
    ensures FoldFrom(60071834495, t, 7) == FoldFrom(10972978884408789199, t, 14)
  {
    assert t[7] == 46 && (60071834495 * 31 + 46) % WORD_MODULUS == 1862226869391;
    assert FoldFrom(60071834495, t, 7) == FoldFrom(1862226869391, t, 8);
    assert t[8] == 99 && (1862226869391 * 31 + 99) % WORD_MODULUS == 57729032951220;
    assert FoldFrom(1862226869391, t, 8) == FoldFrom(57729032951220, t, 9);
    assert t[9] == 111 && (57729032951220 * 31 + 111) % WORD_MODULUS == 1789600021487931;
    assert FoldFrom(57729032951220, t, 9) == FoldFrom(1789600021487931, t, 10);
    assert t[10] == 109 && (1789600021487931 * 31 + 109) % WORD_MODULUS == 55477600666125970;
    assert FoldFrom(1789600021487931, t, 10) == FoldFrom(55477600666125970, t, 11);
    assert t[11] == 112 && (55477600666125970 * 31 + 112) % WORD_MODULUS == 1719805620649905182;
    assert FoldFrom(55477600666125970, t, 11) == FoldFrom(1719805620649905182, t, 12);
    assert t[12] == 97 && (1719805620649905182 * 31 + 97) % WORD_MODULUS == 16420486092727957507;
    assert FoldFrom(1719805620649905182, t, 12) == FoldFrom(16420486092727957507, t, 13);
    assert t[13] == 114 && (16420486092727957507 * 31 + 114) % WORD_MODULUS == 10972978884408789199;
    assert FoldFrom(16420486092727957507, t, 13) == FoldFrom(10972978884408789199, t, 14);
  }

  lemma FoldOfCompareEqFunction2(t: seq<Char32>)
    requires t == [64, 111, 98, 106, 101, 99, 116, 46, 99, 111, 109, 112, 97, 114, 101, 95, 101, 113, 95, 102, 117, 110, 99, 116, 105, 111, 110]
    ensures FoldFrom(10972978884408789199, t, 14) == FoldFrom(14053064147941972281, t, 21)
  {
    assert t[14] == 101 && (10972978884408789199 * 31 + 101) % WORD_MODULUS == 8120952089900536182;
    assert FoldFrom(10972978884408789199, t, 14) == FoldFrom(8120952089900536182, t, 15);
    assert t[15] == 95 && (8120952089900536182 * 31 + 95) % WORD_MODULUS == 11941841828692450729;
    assert FoldFrom(8120952089900536182, t, 15) == FoldFrom(11941841828692450729, t, 16);
    assert t[16] == 101 && (11941841828692450729 * 31 + 101) % WORD_MODULUS == 1262215215274940380;
    assert FoldFrom(11941841828692450729, t, 16) == FoldFrom(1262215215274940380, t, 17);
    assert t[17] == 113 && (1262215215274940380 * 31 + 113) % WORD_MODULUS == 2235183526104048661;
    assert FoldFrom(1262215215274940380, t, 17) == FoldFrom(2235183526104048661, t, 18);
    assert t[18] == 95 && (2235183526104048661 * 31 + 95) % WORD_MODULUS == 13950457088096853738;
    assert FoldFrom(2235183526104048661, t, 18) == FoldFrom(13950457088096853738, t, 19);
    assert t[19] == 102 && (13950457088096853738 * 31 + 102) % WORD_MODULUS == 8189056035682778812;
    assert FoldFrom(13950457088096853738, t, 19) == FoldFrom(8189056035682778812, t, 20);
    assert t[20] == 117 && (8189056035682778812 * 31 + 117) % WORD_MODULUS == 14053064147941972281;
    assert FoldFrom(8189056035682778812, t, 20) == FoldFrom(14053064147941972281, t, 21);
  }

  lemma FoldOfCompareEqFunction3(t: seq<Char32>)
    requires t == [64, 111, 98, 106, 101, 99, 116, 46, 99, 111, 109, 112, 97, 114, 101, 95, 101, 113, 95, 102, 117, 110, 99, 116, 105, 111, 110]
    ensures FoldFrom(14053064147941972281, t, 21) == FoldFrom(2683280440226662594, t, 27)
  {
    assert t[21] == 110 && (14053064147941972281 * 31 + 110) % WORD_MODULUS == 11369874890881453653;
    assert FoldFrom(14053064147941972281, t, 21) == FoldFrom(11369874890881453653, t, 22);
    assert t[22] == 99 && (11369874890881453653 * 31 + 99) % WORD_MODULUS == 1977984216843582638;
    assert FoldFrom(11369874890881453653, t, 22) == FoldFrom(1977984216843582638, t, 23);
    assert t[23] == 116 && (1977984216843582638 * 31 + 116) % WORD_MODULUS == 5977278501022407046;
    assert FoldFrom(1977984216843582638, t, 23) == FoldFrom(5977278501022407046, t, 24);
    assert t[24] == 105 && (5977278501022407046 * 31 + 105) % WORD_MODULUS == 828192794599102371;
    assert FoldFrom(5977278501022407046, t, 24) == FoldFrom(828192794599102371, t, 25);
    assert t[25] == 111 && (828192794599102371 * 31 + 111) % WORD_MODULUS == 7227232558862621996;
    assert FoldFrom(828192794599102371, t, 25) == FoldFrom(7227232558862621996, t, 26);
    assert t[26] == 110 && (7227232558862621996 * 31 + 110) % WORD_MODULUS == 2683280440226662594;
    assert FoldFrom(7227232558862621996, t, 26) == FoldFrom(2683280440226662594, t, 27);
  }

  lemma FoldOfCompareEqFunction(t: seq<Char32>)
    requires t == [64, 111, 98, 106, 101, 99, 116, 46, 99, 111, 109, 112, 97, 114, 101, 95, 101, 113, 95, 102, 117, 110, 99, 116, 105, 111, 110]
    ensures FoldFrom(0, t, 0) == 2683280440226662594
  {
    FoldOfCompareEqFunction0(t);
    FoldOfCompareEqFunction1(t);
    FoldOfCompareEqFunction2(t);
    FoldOfCompareEqFunction3(t);
  }

  lemma FoldOfDestructFunction0(t: seq<Char32>)
    requires t == [64, 111, 98, 106, 101, 99, 116, 46, 100, 101, 115, 116, 114, 117, 99, 116, 95, 102, 117, 110, 99, 116, 105, 111, 110]
    ensures FoldFrom(0, t, 0) == FoldFrom(60071834495, t, 7)
  {
    assert t[0] == 64 && (0 * 31 + 64) % WORD_MODULUS == 64;
    assert FoldFrom(0, t, 0) == FoldFrom(64, t, 1);
    assert t[1] == 111 && (64 * 31 + 111) % WORD_MODULUS == 2095;
    assert FoldFrom(64, t, 1) == FoldFrom(2095, t, 2);
    assert t[2] == 98 && (2095 * 31 + 98) % WORD_MODULUS == 65043;
    assert FoldFrom(2095, t, 2) == FoldFrom(65043, t, 3);
    assert t[3] == 106 && (65043 * 31 + 106) % WORD_MODULUS == 2016439;
    assert FoldFrom(65043, t, 3) == FoldFrom(2016439, t, 4);
    assert t[4] == 101 && (2016439 * 31 + 101) % WORD_MODULUS == 62509710;
    assert FoldFrom(2016439, t, 4) == FoldFrom(62509710, t, 5);
    assert t[5] == 99 && (62509710 * 31 + 99) % WORD_MODULUS == 1937801109;
    assert FoldFrom(62509710, t, 5) == FoldFrom(1937801109, t, 6);
    assert t[6] == 116 && (1937801109 * 31 + 116) % WORD_MODULUS == 60071834495;
    assert FoldFrom(1937801109, t, 6) == FoldFrom(60071834495, t, 7);
  }

  lemma FoldOfDestructFunction1(t: seq<Char32>)
    requires t == [64, 111, 98, 106, 101, 99, 116, 46, 100, 101, 115, 116, 114, 117, 99, 116, 95, 102, 117, 110, 99, 116, 105, 111, 110]
    ensures FoldFrom(60071834495, t, 7) == FoldFrom(10972978884428366260, t, 14)
  {
    assert t[7] == 46 && (60071834495 * 31 + 46) % WORD_MODULUS == 1862226869391;
    assert FoldFrom(60071834495, t, 7) == FoldFrom(1862226869391, t, 8);
    assert t[8] == 100 && (1862226869391 * 31 + 100) % WORD_MODULUS == 57729032951221;
    assert FoldFrom(1862226869391, t, 8) == FoldFrom(57729032951221, t, 9);
    assert t[9] == 101 && (57729032951221 * 31 + 101) % WORD_MODULUS == 1789600021487952;
    assert FoldFrom(57729032951221, t, 9) == FoldFrom(1789600021487952, t, 10);
    assert t[10] == 115 && (1789600021487952 * 31 + 115) % WORD_MODULUS == 55477600666126627;
    assert FoldFrom(1789600021487952, t, 10) == FoldFrom(55477600666126627, t, 11);
    assert t[11] == 116 && (55477600666126627 * 31 + 116) % WORD_MODULUS == 1719805620649925553;
    assert FoldFrom(55477600666126627, t, 11) == FoldFrom(1719805620649925553, t, 12);
    assert t[12] == 114 && (1719805620649925553 * 31 + 114) % WORD_MODULUS == 16420486092728589025;
    assert FoldFrom(1719805620649925553, t, 12) == FoldFrom(16420486092728589025, t, 13);
    assert t[13] == 117 && (16420486092728589025 * 31 + 117) % WORD_MODULUS == 10972978884428366260;
    assert FoldFrom(16420486092728589025, t, 13) == FoldFrom(10972978884428366260, t, 14);
  }

  lemma FoldOfDestructFunction2(t: seq<Char32>)
    requires t == [64, 111, 98, 106, 101, 99, 116, 46, 100, 101, 115, 116, 114, 117, 99, 116, 95, 102, 117, 110, 99, 116, 105, 111, 110]
    ensures FoldFrom(10972978884428366260, t, 14) == FoldFrom(14591680271482837406, t, 21)
  {
    assert t[14] == 99 && (10972978884428366260 * 31 + 99) % WORD_MODULUS == 8120952090507425071;
    assert FoldFrom(10972978884428366260, t, 14) == FoldFrom(8120952090507425071, t, 15);
    assert t[15] == 116 && (8120952090507425071 * 31 + 116) % WORD_MODULUS == 11941841847506006309;
    assert FoldFrom(8120952090507425071, t, 15) == FoldFrom(11941841847506006309, t, 16);
    assert t[16] == 95 && (11941841847506006309 * 31 + 95) % WORD_MODULUS == 1262215798495163354;
    assert FoldFrom(11941841847506006309, t, 16) == FoldFrom(1262215798495163354, t, 17);
    assert t[17] == 102 && (1262215798495163354 * 31 + 102) % WORD_MODULUS == 2235201605930960844;
    assert FoldFrom(1262215798495163354, t, 17) == FoldFrom(2235201605930960844, t, 18);
    assert t[18] == 117 && (2235201605930960844 * 31 + 117) % WORD_MODULUS == 13951017562731131433;
    assert FoldFrom(2235201605930960844, t, 18) == FoldFrom(13951017562731131433, t, 19);
    assert t[19] == 110 && (13951017562731131433 * 31 + 110) % WORD_MODULUS == 8206430749345387365;
    assert FoldFrom(13951017562731131433, t, 19) == FoldFrom(8206430749345387365, t, 20);
    assert t[20] == 99 && (8206430749345387365 * 31 + 99) % WORD_MODULUS == 14591680271482837406;
    assert FoldFrom(8206430749345387365, t, 20) == FoldFrom(14591680271482837406, t, 21);
  }

  lemma FoldOfDestructFunction3(t: seq<Char32>)
    requires t == [64, 111, 98, 106, 101, 99, 116, 46, 100, 101, 115, 116, 114, 117, 99, 116, 95, 102, 117, 110, 99, 116, 105, 111, 110]
    ensures FoldFrom(14591680271482837406, t, 21) == FoldFrom(7675273799841066418, t, 25)
  {
    assert t[21] == 116 && (14591680271482837406 * 31 + 116) % WORD_MODULUS == 9620230646938720918;
    assert FoldFrom(14591680271482837406, t, 21) == FoldFrom(9620230646938720918, t, 22);
    assert t[22] == 105 && (9620230646938720918 * 31 + 105) % WORD_MODULUS == 3079244875747522707;
    assert FoldFrom(9620230646938720918, t, 22) == FoldFrom(3079244875747522707, t, 23);
    assert t[23] == 111 && (3079244875747522707 * 31 + 111) % WORD_MODULUS == 3222870779625445948;
    assert FoldFrom(3079244875747522707, t, 23) == FoldFrom(3222870779625445948, t, 24);
    assert t[24] == 110 && (3222870779625445948 * 31 + 110) % WORD_MODULUS == 7675273799841066418;
    assert FoldFrom(3222870779625445948, t, 24) == FoldFrom(7675273799841066418, t, 25);
  }

  lemma FoldOfDestructFunction(t: seq<Char32>)
    requires t == [64, 111, 98, 106, 101, 99, 116, 46, 100, 101, 115, 116, 114, 117, 99, 116, 95, 102, 117, 110, 99, 116, 105, 111, 110]
    ensures FoldFrom(0, t, 0) == 7675273799841066418
  {
    FoldOfDestructFunction0(t);
    FoldOfDestructFunction1(t);
    FoldOfDestructFunction2(t);
    FoldOfDestructFunction3(t);
  }

  lemma FoldOfTypeName0(t: seq<Char32>)
    requires t == [64, 111, 98, 106, 101, 99, 116, 46, 116, 121, 112, 101, 95, 110, 97, 109, 101]
    ensures FoldFrom(0, t, 0) == FoldFrom(60071834495, t, 7)
  {
    assert t[0] == 64 && (0 * 31 + 64) % WORD_MODULUS == 64;
    assert FoldFrom(0, t, 0) == FoldFrom(64, t, 1);
    assert t[1] == 111 && (64 * 31 + 111) % WORD_MODULUS == 2095;
    assert FoldFrom(64, t, 1) == FoldFrom(2095, t, 2);
    assert t[2] == 98 && (2095 * 31 + 98) % WORD_MODULUS == 65043;
    assert FoldFrom(2095, t, 2) == FoldFrom(65043, t, 3);
    assert t[3] == 106 && (65043 * 31 + 106) % WORD_MODULUS == 2016439;
    assert FoldFrom(65043, t, 3) == FoldFrom(2016439, t, 4);
    assert t[4] == 101 && (2016439 * 31 + 101) % WORD_MODULUS == 62509710;
    assert FoldFrom(2016439, t, 4) == FoldFrom(62509710, t, 5);
    assert t[5] == 99 && (62509710 * 31 + 99) % WORD_MODULUS == 1937801109;
    assert FoldFrom(62509710, t, 5) == FoldFrom(1937801109, t, 6);
    assert t[6] == 116 && (1937801109 * 31 + 116) % WORD_MODULUS == 60071834495;
    assert FoldFrom(1937801109, t, 6) == FoldFrom(60071834495, t, 7);
  }

  lemma FoldOfTypeName1(t: seq<Char32>)
    requires t == [64, 111, 98, 106, 101, 99, 116, 46, 116, 121, 112, 101, 95, 110, 97, 109, 101]
    ensures FoldFrom(60071834495, t, 7) == FoldFrom(10972978884904798712, t, 14)
  {
    assert t[7] == 46 && (60071834495 * 31 + 46) % WORD_MODULUS == 1862226869391;
    assert FoldFrom(60071834495, t, 7) == FoldFrom(1862226869391, t, 8);
    assert t[8] == 116 && (1862226869391 * 31 + 116) % WORD_MODULUS == 57729032951237;
    assert FoldFrom(1862226869391, t, 8) == FoldFrom(57729032951237, t, 9);
    assert t[9] == 121 && (57729032951237 * 31 + 121) % WORD_MODULUS == 1789600021488468;
    assert FoldFrom(57729032951237, t, 9) == FoldFrom(1789600021488468, t, 10);
    assert t[10] == 112 && (1789600021488468 * 31 + 112) % WORD_MODULUS == 55477600666142620;
    assert FoldFrom(1789600021488468, t, 10) == FoldFrom(55477600666142620, t, 11);
    assert t[11] == 101 && (55477600666142620 * 31 + 101) % WORD_MODULUS == 1719805620650421321;
    assert FoldFrom(55477600666142620, t, 11) == FoldFrom(1719805620650421321, t, 12);
    assert t[12] == 95 && (1719805620650421321 * 31 + 95) % WORD_MODULUS == 16420486092743957814;
    assert FoldFrom(1719805620650421321, t, 12) == FoldFrom(16420486092743957814, t, 13);
    assert t[13] == 110 && (16420486092743957814 * 31 + 110) % WORD_MODULUS == 10972978884904798712;
    assert FoldFrom(16420486092743957814, t, 13) == FoldFrom(10972978884904798712, t, 14);
  }

  lemma FoldOfTypeName2(t: seq<Char32>)
    requires t == [64, 111, 98, 106, 101, 99, 116, 46, 116, 121, 112, 101, 95, 110, 97, 109, 101]
    ensures FoldFrom(10972978884904798712, t, 14) == FoldFrom(1262229991894338753, t, 17)
  {
    assert t[14] == 97 && (10972978884904798712 * 31 + 97) % WORD_MODULUS == 8120952105276831081;
    assert FoldFrom(10972978884904798712, t, 14) == FoldFrom(8120952105276831081, t, 15);
    assert t[15] == 109 && (8120952105276831081 * 31 + 109) % WORD_MODULUS == 11941842305357592612;
    assert FoldFrom(8120952105276831081, t, 15) == FoldFrom(11941842305357592612, t, 16);
    assert t[16] == 101 && (11941842305357592612 * 31 + 101) % WORD_MODULUS == 1262229991894338753;
    assert FoldFrom(11941842305357592612, t, 16) == FoldFrom(1262229991894338753, t, 17);
  }

  lemma FoldOfTypeName(t: seq<Char32>)
    requires t == [64, 111, 98, 106, 101, 99, 116, 46, 116, 121, 112, 101, 95, 110, 97, 109, 101]
    ensures FoldFrom(0, t, 0) == 1262229991894338753
  {
    FoldOfTypeName0(t);
    FoldOfTypeName1(t);
    FoldOfTypeName2(t);
  }
}
