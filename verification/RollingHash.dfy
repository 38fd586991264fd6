/** The running hash of the last three bytes of the window, UPDATE_HASH and INSERT_STRING's key. */
module RollingHash {
  import opened Bitwise

  /** hash_bits is memLevel + 7 with memLevel in 1..9. */
  type HashBits = b: nat | 8 <= b <= 16 witness 15

  function HashSize(bits: HashBits): (n: nat)
    ensures n > 0
  {
    Pow2(bits)
  }

  function HashShift(bits: HashBits): nat {
    (bits + 2) / 3
  }

  /** UPDATE_HASH: h becomes ((h << hash_shift) ^ c) & hash_mask. */
  function UpdateHash(bits: HashBits, h: nat, c: byte): (r: nat)
    ensures r < HashSize(bits)
  {
    Xor(h * Pow2(HashShift(bits)), c) % HashSize(bits)
  }

  /** The key of three consecutive bytes, computed from scratch as fill_window does. */
  function Key(bits: HashBits, a: byte, b: byte, c: byte): (r: nat)
    ensures r < HashSize(bits)
  {
    UpdateHash(bits, UpdateHash(bits, a, b), c)
  }

  /** The hash is that of the two bytes in front of a third one. */
  ghost predicate Primes(bits: HashBits, h: nat, a: byte, b: byte) {
    forall c: byte :: UpdateHash(bits, h, c) == Key(bits, a, b, c)
  }

  lemma HashCoversByte(bits: HashBits)
    ensures HashSize(bits) >= 256
  {
    Pow2Monotone(8, bits);
    assert Pow2(4) == 16;
    Pow2Add(4, 4);
  }

  /** Two strings that agree on two bytes and on the key agree on the third byte. */
  lemma KeyFixesThirdByte(bits: HashBits, a: byte, b: byte, c: byte, d: byte)
    requires Key(bits, a, b, c) == Key(bits, a, b, d)
    ensures c == d
  {
    var h := UpdateHash(bits, a, b) * Pow2(HashShift(bits));
    var m := HashSize(bits);
    hide *;
    HashCoversByte(bits);
    UpdateIsXor(bits, UpdateHash(bits, a, b), c);
    UpdateIsXor(bits, UpdateHash(bits, a, b), d);
    XorCancels(h % m, c, d);
  }

  lemma UpdateIsXor(bits: HashBits, h: nat, c: byte)
    ensures UpdateHash(bits, h, c) == Xor(h * Pow2(HashShift(bits)) % HashSize(bits), c)
  {
    HashCoversByte(bits);
    var x := h * Pow2(HashShift(bits));
    hide Xor, Pow2;
    XorMod(x, c, bits);
    SmallMod(c, HashSize(bits));
  }

  lemma MulMod(h: nat, s: nat, m: nat)
    requires m > 0
    ensures (h % m) * s % m == h * s % m
  {
    var q := h / m;
    assert h * s == m * (q * s) + (h % m) * s;
    var t := (h % m) * s;
    ModUnique(h * s, m, q * s + t / m, t % m);
  }

  /** Reducing the hash before shifting it changes nothing. */
  lemma UpdateReduced(bits: HashBits, h: nat, c: byte)
    ensures UpdateHash(bits, h % HashSize(bits), c) == UpdateHash(bits, h, c)
  {
    hide Xor;
    var s, m := Pow2(HashShift(bits)), HashSize(bits);
    XorMod(h * s, c, bits);
    XorMod((h % m) * s, c, bits);
    MulMod(h, s, m);
  }

  lemma UpdateXor(bits: HashBits, u: nat, v: nat, c: byte)
    ensures UpdateHash(bits, Xor(u, v), c)
         == Xor(u * Pow2(HashShift(bits)), Xor(v * Pow2(HashShift(bits)), c)) % HashSize(bits)
  {
    hide Xor;
    var s := HashShift(bits);
    XorShift(u, v, s);
    XorAssociates(u * Pow2(s), v * Pow2(s), c);
  }

  /** After three steps the oldest byte takes no part in the key: 3 * hash_shift >= hash_bits. */
  lemma OldestByteForgotten(bits: HashBits, h: nat, a: byte, b: byte, c: byte)
    ensures UpdateHash(bits, UpdateHash(bits, UpdateHash(bits, h, a), b), c) == Key(bits, a, b, c)
  {
    hide Xor;
    hide HashShift;
    var s, m := Pow2(HashShift(bits)), HashSize(bits);
    // Write x = h << s, so the three-step hash is that of (x ^ a), ((x << s) ^ (a << s) ^ b), ...
    var x := h * s;
    UpdateReduced(bits, Xor(x, a), b);
    UpdateXor(bits, x, a, b);
    var ab := Xor(a * s, b);
    UpdateReduced(bits, Xor(x * s, ab), c);
    UpdateXor(bits, x * s, ab, c);
    UpdateReduced(bits, ab, c);
    var abc := Xor(ab * s, c);
    XorMod(x * s * s, abc, bits);
    ShiftedOut(bits, h);
    XorMod(0, abc, bits);
    assert Xor(0, abc) == abc by { XorCommutes(0, abc); XorZero(abc); }
  }

  lemma ShiftedOut(bits: HashBits, h: nat)
    ensures var s := Pow2(HashShift(bits)); h * s * s * s % HashSize(bits) == 0
  {
    var k := HashShift(bits);
    var s, m := Pow2(k), HashSize(bits);
    Pow2Add(k, k);
    Pow2Add(k + k, k);
    Pow2Add(bits, 3 * k - bits);
    hide Pow2;
    var e := Pow2(3 * k - bits);
    Regroup(h, s, m, e);
    ModUnique(h * s * s * s, m, h * e, 0);
  }

  lemma Regroup(h: int, s: int, m: int, e: int)
    requires (s * s) * s == m * e
    ensures h * s * s * s == m * (h * e)
  {
    assert h * s * s * s == h * ((s * s) * s);
    assert h * (m * e) == m * (h * e);
  }
}
