/**
 * Machine words of the 64-bit targets the library is built for.
 * `size_t`, `intptr_t` and `Object_Key` are all 64 bits wide; a value of
 * either signedness is represented by its bit pattern read as an unsigned
 * number, so `OBJ_KEY_HASH_FLAG` (INTPTR_MIN) is 2^63.
 */
module Words {
  const WORD_MODULUS: int := 0x1_0000_0000_0000_0000

  /** SIZE_MAX, the value a `size_t` counter wraps to below zero. */
  const SIZE_MAX: int := WORD_MODULUS - 1

  type Word = w: int | 0 <= w < WORD_MODULUS

  /** An `Object_Key`: an `intptr_t`, as its bit pattern. */
  type Key = Word

  /** OBJ_KEY_HASH_FLAG: the top bit of a key marks a key obtained by hashing. */
  const KEY_HASH_FLAG: Key := 0x8000_0000_0000_0000

  /** OBJ_KEY_IS_HASH */
  predicate IsHashKey(k: Key)
  {
    k >= KEY_HASH_FLAG
  }

  /** `k | OBJ_KEY_HASH_FLAG`: sets the top bit and keeps the 63 bits below it. */
  function WithHashFlag(k: Key): (r: Key)
    ensures IsHashKey(r)
    ensures r % KEY_HASH_FLAG == k % KEY_HASH_FLAG
    ensures IsHashKey(k) ==> r == k
  {
    if IsHashKey(k) then k else k + KEY_HASH_FLAG
  }

  /** A `char32_t` code unit. */
  type Char32 = c: int | 0 <= c < 0x1_0000_0000

  /** `w + 1` on a 64-bit unsigned word. */
  function WrapInc(w: Word): Word
  {
    (w + 1) % WORD_MODULUS
  }

  /** `w - 1` on a 64-bit unsigned word: 0 wraps to SIZE_MAX. */
  function WrapDec(w: Word): Word
  {
    if w == 0 then SIZE_MAX else w - 1
  }
}

/** The arithmetic of hash_char32_append: a wrapping base-31 fold over code units. */
module HashFold {
  import opened Words

  /** The wrapping fold `h * 31 + c` over the code units of t from position i on. */
  function FoldFrom(h: Word, t: seq<Char32>, i: nat): Word
    requires i <= |t|
    decreases |t| - i
  {
    if i == |t| then h else FoldFrom((h * 31 + t[i]) % WORD_MODULUS, t, i + 1)
  }
}
