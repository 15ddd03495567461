/**
 * Zero-terminated UTF-32 strings (`char32_t` buffers) and the routines of
 * obj_tree.c that walk them: length, copy, equality and the string hash.
 * A buffer is a sequence of code units; the string it holds is the prefix
 * before the first NUL.
 */
module Char32String {
  import opened Words
  import opened HashFold

  /** The buffer holds a C string starting at position i: a NUL occurs at or after i. */
  predicate Terminated(buf: seq<Char32>, i: nat)
  {
    i <= |buf| && 0 in buf[i..]
  }

  lemma TerminatedStep(buf: seq<Char32>, i: nat)
    requires Terminated(buf, i) && buf[i] != 0
    ensures Terminated(buf, i + 1)
  {
    assert buf[i..] == [buf[i]] + buf[i + 1..];
  }

  /** u32strlen: the number of code units before the first NUL at or after i. */
  function Strlen(buf: seq<Char32>, i: nat): (n: nat)
    requires Terminated(buf, i)
    ensures i + n < |buf| && buf[i + n] == 0
    ensures forall j :: i <= j < i + n ==> buf[j] != 0
    decreases |buf| - i
  {
    if buf[i] == 0 then 0
    else
      TerminatedStep(buf, i);
      1 + Strlen(buf, i + 1)
  }

  /** The string held in the buffer from position i on. */
  function TextFrom(buf: seq<Char32>, i: nat): seq<Char32>
    requires Terminated(buf, i)
  {
    buf[i..i + Strlen(buf, i)]
  }

  /** The string held in the buffer. */
  function Text(buf: seq<Char32>): seq<Char32>
    requires Terminated(buf, 0)
  {
    TextFrom(buf, 0)
  }

  /** A string never contains a NUL. */
  predicate NulFree(t: seq<Char32>)
  {
    forall j :: 0 <= j < |t| ==> t[j] != 0
  }

  /** A string without a 0 code unit is NUL-free. */
  lemma NoNulUnit(t: seq<Char32>)
    requires 0 !in t
    ensures NulFree(t)
  {
    forall j | 0 <= j < |t|
      ensures t[j] != 0
    {
      assert t[j] in t;
    }
  }

  lemma TextFromStep(buf: seq<Char32>, i: nat)
    requires Terminated(buf, i) && buf[i] != 0
    ensures Terminated(buf, i + 1)
    ensures TextFrom(buf, i) == [buf[i]] + TextFrom(buf, i + 1)
  {
    TerminatedStep(buf, i);
    var n := Strlen(buf, i + 1);
    assert Strlen(buf, i) == n + 1;
    assert buf[i..i + 1 + n] == [buf[i]] + buf[i + 1..i + 1 + n];
  }

  /** The string of a buffer is the longest NUL-free prefix before a NUL. */
  lemma TextFromShape(buf: seq<Char32>, i: nat)
    requires Terminated(buf, i)
    ensures NulFree(TextFrom(buf, i))
    ensures buf[i..i + |TextFrom(buf, i)| + 1] == TextFrom(buf, i) + [0]
  {
    var n := Strlen(buf, i);
    assert buf[i..i + n + 1] == buf[i..i + n] + [buf[i + n]];
  }

  /**
   * compare_eq_char32_string: walks both strings from position i while their
   * code units agree; 1 when it reaches a NUL common to both, 0 at the first
   * difference.
   */
  function CompareEq(a: seq<Char32>, b: seq<Char32>, i: nat): (r: int)
    requires Terminated(a, i) && Terminated(b, i)
    ensures r == 0 || r == 1
    decreases |a| - i
  {
    if a[i] != b[i] then 0
    else if a[i] == 0 then 1
    else
      TerminatedStep(a, i);
      TerminatedStep(b, i);
      CompareEq(a, b, i + 1)
  }

  /** compare_eq_char32_string answers 1 exactly when the two strings are equal. */
  lemma {:induction false} CompareEqIsTextEquality(a: seq<Char32>, b: seq<Char32>, i: nat)
    requires Terminated(a, i) && Terminated(b, i)
    ensures CompareEq(a, b, i) == 1 <==> TextFrom(a, i) == TextFrom(b, i)
    decreases |a| - i
  {
    if a[i] != b[i] {
      if a[i] == 0 {
        TextFromStep(b, i);
      } else if b[i] == 0 {
        TextFromStep(a, i);
      } else {
        TextFromStep(a, i);
        TextFromStep(b, i);
        assert TextFrom(a, i)[0] != TextFrom(b, i)[0];
      }
    } else if a[i] != 0 {
      TextFromStep(a, i);
      TextFromStep(b, i);
      CompareEqIsTextEquality(a, b, i + 1);
      if TextFrom(a, i) == TextFrom(b, i) {
        assert TextFrom(a, i + 1) == TextFrom(a, i)[1..];
      }
    }
  }

  /**
   * u32strcpy, and the `memcpy` of `u32strlen(str) + 1` code units in
   * obj_create_char32_string: the code units written to the destination.
   */
  function Copy(src: seq<Char32>, i: nat): (dst: seq<Char32>)
    requires Terminated(src, i)
    ensures dst == TextFrom(src, i) + [0]
    decreases |src| - i
  {
    if src[i] == 0 then [0]
    else
      TextFromStep(src, i);
      [src[i]] + Copy(src, i + 1)
  }

  /** The copy holds the same string as its source, and nothing after its terminator. */
  lemma CopyKeepsText(src: seq<Char32>)
    requires Terminated(src, 0)
    ensures Terminated(Copy(src, 0), 0)
    ensures Text(Copy(src, 0)) == Text(src)
    ensures |Copy(src, 0)| == Strlen(src, 0) + 1
  {
    var t := Text(src);
    var dst := Copy(src, 0);
    TextFromShape(src, 0);
    assert dst[|t|] == 0;
    assert 0 in dst[0..];
    assert dst[..Strlen(dst, 0)] == t;
  }

  /** hash_char32_append: folds `h * 31 + c` over the string, then sets the hash flag. */
  function HashAppend(h: Word, buf: seq<Char32>, i: nat): (r: Key)
    requires Terminated(buf, i)
    ensures IsHashKey(r)
    decreases |buf| - i
  {
    if buf[i] == 0 then WithHashFlag(h)
    else
      TerminatedStep(buf, i);
      HashAppend((h * 31 + buf[i]) % WORD_MODULUS, buf, i + 1)
  }

  /** hash_char32_string */
  function HashString(buf: seq<Char32>): Key
    requires Terminated(buf, 0)
  {
    HashAppend(0, buf, 0)
  }

  lemma {:induction false} HashAppendIsFold(h: Word, buf: seq<Char32>, i: nat)
    requires Terminated(buf, i)
    ensures HashAppend(h, buf, i) == WithHashFlag(FoldFrom(h, buf[..i + Strlen(buf, i)], i))
    decreases |buf| - i
  {
    if buf[i] != 0 {
      TerminatedStep(buf, i);
      HashAppendIsFold((h * 31 + buf[i]) % WORD_MODULUS, buf, i + 1);
      assert Strlen(buf, i) == 1 + Strlen(buf, i + 1);
    }
  }

  /** The buffer a NUL-free string occupies once terminated, and the hash of that buffer. */
  lemma HashOfText(t: seq<Char32>)
    requires NulFree(t)
    ensures Terminated(t + [0], 0) && Text(t + [0]) == t
    ensures HashString(t + [0]) == WithHashFlag(FoldFrom(0, t, 0))
  {
    var buf := t + [0];
    assert buf[0..][|t|] == 0;
    assert buf[..Strlen(buf, 0)] == t;
    HashAppendIsFold(0, buf, 0);
  }

  function Pow31(n: nat): nat
  {
    if n == 0 then 1 else 31 * Pow31(n - 1)
  }

  /** The string read as a number in base 31, most significant code unit first. */
  function Poly(t: seq<Char32>): nat
  {
    if t == [] then 0 else t[0] * Pow31(|t| - 1) + Poly(t[1..])
  }

  lemma ModShift(y: int, k: int)
    ensures (y + k * WORD_MODULUS) % WORD_MODULUS == y % WORD_MODULUS
  {
  }

  lemma ModMulAdd(a: int, p: int, x: int)
    ensures ((a % WORD_MODULUS) * p + x) % WORD_MODULUS == (a * p + x) % WORD_MODULUS
  {
    var q := a / WORD_MODULUS;
    assert a == q * WORD_MODULUS + a % WORD_MODULUS;
    assert a * p + x == ((a % WORD_MODULUS) * p + x) + (q * p) * WORD_MODULUS;
    ModShift((a % WORD_MODULUS) * p + x, q * p);
  }

  lemma HashStepArithmetic(h: int, c: int, p: int, x: int, p1: int, poly: int)
    requires p1 == 31 * p && poly == c * p + x
    ensures (((h * 31 + c) % WORD_MODULUS) * p + x) % WORD_MODULUS == (h * p1 + poly) % WORD_MODULUS
  {
    ModMulAdd(h * 31 + c, p, x);
    assert (h * 31 + c) * p + x == h * p1 + poly;
  }

  /**
   * The wrapping fold equals the closed form `h * 31^n + sum c_j * 31^(n-1-j)`
   * reduced modulo 2^64, with the hash flag set.
   */
  lemma {:induction false} HashIsPolynomial(h: Word, buf: seq<Char32>, i: nat)
    requires Terminated(buf, i)
    ensures HashAppend(h, buf, i)
         == WithHashFlag((h * Pow31(Strlen(buf, i)) + Poly(TextFrom(buf, i))) % WORD_MODULUS)
    decreases |buf| - i
  {
    if buf[i] == 0 {
      assert TextFrom(buf, i) == [] && Strlen(buf, i) == 0;
      assert h * Pow31(0) + Poly([]) == h;
      assert h % WORD_MODULUS == h;
    } else {
      var c := buf[i];
      TextFromStep(buf, i);
      var m := Strlen(buf, i + 1);
      var rest := TextFrom(buf, i + 1);
      var h' := (h * 31 + c) % WORD_MODULUS;
      HashIsPolynomial(h', buf, i + 1);
      assert HashAppend(h, buf, i) == HashAppend(h', buf, i + 1);
      assert Strlen(buf, i) == m + 1;
      assert TextFrom(buf, i)[1..] == rest;
      assert Poly(TextFrom(buf, i)) == c * Pow31(m) + Poly(rest);
      HashStepArithmetic(h, c, Pow31(m), Poly(rest), Pow31(m + 1), Poly(TextFrom(buf, i)));
      var closed := (h * Pow31(m + 1) + Poly(TextFrom(buf, i))) % WORD_MODULUS;
      assert HashAppend(h', buf, i + 1) == WithHashFlag(closed);
      assert Pow31(Strlen(buf, i)) == Pow31(m + 1);
      assert closed == (h * Pow31(Strlen(buf, i)) + Poly(TextFrom(buf, i))) % WORD_MODULUS;
    }
  }

  /** The hash depends on the string alone, not on what follows its terminator. */
  lemma HashDependsOnTextOnly(a: seq<Char32>, b: seq<Char32>)
    requires Terminated(a, 0) && Terminated(b, 0)
    requires Text(a) == Text(b)
    ensures HashString(a) == HashString(b)
  {
    HashIsPolynomial(0, a, 0);
    HashIsPolynomial(0, b, 0);
  }
}
