/**
  The integer and string hash functions of the hash-function experiment
  (hash_func.cpp), and the histogram index it computes from them.

  A C string is modelled by the characters before its terminating NUL, as
  a `CString`. `char` is signed on the targets the program runs on, and
  the generator fills strings with `rand() % 256`, so a byte of 128 or more
  is a negative `char`; each character is an int in [-128, 127] other than
  0. Every `hash_t` accumulator wraps modulo 2^64, written out explicitly.
 */
module HashFunc {
  import opened CTypes
  import opened Arith

  /** Number of histogram buckets (`BUFFER_SIZE`). */
  const BUFFER_SIZE: nat := 1000

  /** A signed, non-NUL `char`. */
  type CChar = c: int | -128 <= c <= 127 && c != 0 witness 1

  /** The characters of a NUL-terminated string, without the NUL. */
  type CString = seq<CChar>

  // ---------------------------------------------------------------------
  // Integer keys: hash_mod and hash_bin(int) both return the key widened
  // to hash_t.

  function HashMod(key: int): (h: nat)
    requires IsInt32(key)
    ensures IsHash(h)
    ensures key >= 0 ==> h == key
    ensures key < 0 ==> h == key + HASH_MODULUS
  {
    ToHash(key)
  }

  function HashBinInt(key: int): (h: nat)
    requires IsInt32(key)
    ensures h == HashMod(key)
  {
    ToHash(key)
  }

  // ---------------------------------------------------------------------
  // String keys. Each `for (; *key; key++)` loop is a left fold over the
  // characters, written with an explicit accumulator.

  function LenLoop(s: CString, len: nat): (r: nat)
    decreases |s|
  {
    if s == [] then len else LenLoop(s[1..], (len + 1) % HASH_MODULUS)
  }

  /** hash_len: counts the characters before the NUL. */
  function HashLen(s: CString): nat {
    LenLoop(s, 0)
  }

  function CharsumLoop(s: CString, sum: nat): (r: nat)
    decreases |s|
  {
    if s == [] then sum else CharsumLoop(s[1..], (sum + s[0]) % HASH_MODULUS)
  }

  /** hash_charsum: adds the (signed) characters into a hash_t. */
  function HashCharsum(s: CString): nat {
    CharsumLoop(s, 0)
  }

  function PolyLoop(s: CString, sum: nat): (r: nat)
    decreases |s|
  {
    if s == [] then sum else PolyLoop(s[1..], (sum * 7 + s[0]) % HASH_MODULUS)
  }

  /** poly_hash: Horner evaluation in base 7. */
  function PolyHash(s: CString): nat {
    PolyLoop(s, 0)
  }

  function Crc32Loop(s: CString, sum1: nat, sum2: nat): (r: (nat, nat))
    decreases |s|
  {
    if s == [] then (sum1, sum2)
    else
      var sum1' := (sum1 + s[0]) % HALF_MODULUS;
      var sum2' := (sum1' + sum2) % HALF_MODULUS;
      Crc32Loop(s[1..], sum1', sum2')
  }

  /**
    crc32: despite its name, not CRC-32 but the two running sums of
    Adler-32 (RFC 1950, section 2.2) taken modulo 2^32 instead of 65521.
    The result is `(sum2 << 32) + sum1` computed in hash_t.
   */
  function Crc32(s: CString): nat {
    var (sum1, sum2) := Crc32Loop(s, 1, 0);
    ((sum2 * HALF_MODULUS) % HASH_MODULUS + sum1) % HASH_MODULUS
  }

  /** The histogram slot `func(key) % BUFFER_SIZE` that test_func increments. */
  function HistogramIndex(h: nat): (i: nat)
    requires IsHash(h)
    ensures i < BUFFER_SIZE
    ensures (h - i) % BUFFER_SIZE == 0
  {
    h % BUFFER_SIZE
  }

  // ---------------------------------------------------------------------
  // Reference definitions over unbounded integers, and the lemmas that
  // connect each fold to its reference.

  function Sum(s: CString): int {
    if s == [] then 0 else Sum(s[..|s| - 1]) + s[|s| - 1]
  }

  /** Horner value in base 7 without wrap-around. */
  function Poly(s: CString): int {
    if s == [] then 0 else 7 * Poly(s[..|s| - 1]) + s[|s| - 1]
  }

  /** Adler-style first sum: 1 plus the characters, modulo 2^32. */
  function Adler1(s: CString): nat {
    (1 + Sum(s)) % HALF_MODULUS
  }

  /** Adler-style second sum: the first sums of every non-empty prefix, modulo 2^32. */
  function Adler2(s: CString): nat {
    if s == [] then 0 else (Adler2(s[..|s| - 1]) + Adler1(s)) % HALF_MODULUS
  }

  lemma {:induction false} LenLoopCounts(s: CString, len: nat)
    requires len < HASH_MODULUS
    ensures LenLoop(s, len) == (len + |s|) % HASH_MODULUS
    decreases |s|
  {
    if s != [] {
      LenLoopCounts(s[1..], (len + 1) % HASH_MODULUS);
    }
  }

  /** hash_len returns the length of the string (modulo 2^64). */
  lemma HashLenIsLength(s: CString)
    ensures HashLen(s) == |s| % HASH_MODULUS
  {
    LenLoopCounts(s, 0);
  }

  lemma SumFront(s: CString)
    requires s != []
    ensures Sum(s) == s[0] + Sum(s[1..])
    decreases |s|
  {
    if |s| > 1 {
      SumFront(s[..|s| - 1]);
      assert s[..|s| - 1][1..] == s[1..][..|s| - 2];
    }
  }

  lemma {:induction false} CharsumLoopSums(s: CString, sum: nat)
    requires sum < HASH_MODULUS
    ensures CharsumLoop(s, sum) == (sum + Sum(s)) % HASH_MODULUS
    decreases |s|
  {
    if s != [] {
      CharsumLoopSums(s[1..], (sum + s[0]) % HASH_MODULUS);
      SumFront(s);
      ModAdd(sum + s[0], Sum(s[1..]), HASH_MODULUS);
      assert sum + s[0] + Sum(s[1..]) == sum + Sum(s);
    }
  }

  /** hash_charsum is the signed sum of the characters, modulo 2^64. */
  lemma HashCharsumIsSum(s: CString)
    ensures HashCharsum(s) == Sum(s) % HASH_MODULUS
  {
    CharsumLoopSums(s, 0);
  }

  function Pow7(n: nat): nat {
    if n == 0 then 1 else 7 * Pow7(n - 1)
  }

  lemma PolyFront(s: CString)
    requires s != []
    ensures Poly(s) == s[0] * Pow7(|s| - 1) + Poly(s[1..])
    decreases |s|
  {
    if |s| > 1 {
      var init, rest := s[..|s| - 1], s[1..];
      PolyFront(init);
      assert init[1..] == rest[..|rest| - 1];
      var p := Pow7(|s| - 2);
      assert Poly(init) == s[0] * p + Poly(init[1..]);
      assert Poly(rest) == 7 * Poly(init[1..]) + s[|s| - 1];
      MulComm7(s[0], p);
    }
  }

  lemma {:induction false} PolyLoopHorner(s: CString, sum: nat)
    requires sum < HASH_MODULUS
    ensures PolyLoop(s, sum) == (sum * Pow7(|s|) + Poly(s)) % HASH_MODULUS
    decreases |s|
  {
    if s != [] {
      var a := sum * 7 + s[0];
      PolyLoopHorner(s[1..], a % HASH_MODULUS);
      PolyFront(s);
      var p, b := Pow7(|s| - 1), Poly(s[1..]);
      ModMulAdd(a, p, b, HASH_MODULUS);
      Distrib7(sum, s[0], p);
    }
  }

  lemma MulComm7(a: int, p: int)
    ensures 7 * (a * p) == a * (7 * p)
  {
  }

  lemma Distrib7(sum: int, c: int, p: int)
    ensures (sum * 7 + c) * p == sum * (7 * p) + c * p
  {
  }

  /** poly_hash is the base-7 Horner value of the string, modulo 2^64. */
  lemma PolyHashIsHorner(s: CString)
    ensures PolyHash(s) == Poly(s) % HASH_MODULUS
  {
    PolyLoopHorner(s, 0);
  }

  /** poly_hash of the empty string is 0, and appending c maps h to 7h + c (mod 2^64). */
  lemma PolyHashStep(s: CString, c: CChar)
    ensures PolyHash([]) == 0
    ensures PolyHash(s + [c]) == (7 * PolyHash(s) + c) % HASH_MODULUS
  {
    PolyHashIsHorner(s);
    PolyHashIsHorner(s + [c]);
    assert (s + [c])[..|s + [c]| - 1] == s;
    ModMulAdd(Poly(s), 7, c, HASH_MODULUS);
  }

  lemma {:induction false} Crc32LoopSums(s: CString, prefix: CString)
    ensures Crc32Loop(s, Adler1(prefix), Adler2(prefix)) == (Adler1(prefix + s), Adler2(prefix + s))
    decreases |s|
  {
    if s != [] {
      var p' := prefix + [s[0]];
      assert p'[..|p'| - 1] == prefix;
      assert Sum(p') == Sum(prefix) + s[0];
      ModAdd(1 + Sum(prefix), s[0], HALF_MODULUS);
      assert Adler1(p') == (Adler1(prefix) + s[0]) % HALF_MODULUS;
      assert Adler2(p') == (Adler1(p') + Adler2(prefix)) % HALF_MODULUS;
      assert Crc32Loop(s, Adler1(prefix), Adler2(prefix)) == Crc32Loop(s[1..], Adler1(p'), Adler2(p'));
      assert prefix + s == p' + s[1..];
      Crc32LoopSums(s[1..], p');
    } else {
      assert prefix + s == prefix;
    }
  }

  /**
    crc32 of the empty string is 1, and in general it packs the second sum
    into the high 32 bits and the first sum into the low 32 bits; the shift
    and the addition never wrap.
   */
  lemma Crc32IsPackedSums(s: CString)
    ensures Crc32([]) == 1
    ensures Crc32(s) == Adler2(s) * HALF_MODULUS + Adler1(s)
    ensures Adler1(s) < HALF_MODULUS && Adler2(s) < HALF_MODULUS
  {
    assert Adler1([]) == 1 && Adler2([]) == 0;
    PackNoWrap(1, 0);
    Crc32LoopSums(s, []);
    assert [] + s == s;
    PackNoWrap(Adler1(s), Adler2(s));
  }

  /** `(sum2 << 32) + sum1` in hash_t is exact when both sums are below 2^32. */
  lemma PackNoWrap(sum1: nat, sum2: nat)
    requires sum1 < HALF_MODULUS && sum2 < HALF_MODULUS
    ensures ((sum2 * HALF_MODULUS) % HASH_MODULUS + sum1) % HASH_MODULUS == sum2 * HALF_MODULUS + sum1
  {
    assert sum2 * HALF_MODULUS <= HASH_MODULUS - HALF_MODULUS;
  }
}
