/** The input of a decoder as one little-endian number, and the bit accumulator over it. */
module BitStream {
  import opened Bitwise

  /** The bits of the data, the first byte least significant. */
  function Number(data: seq<byte>): nat {
    if data == [] then 0 else Number(data[..|data| - 1]) + data[|data| - 1] * Pow2(8 * (|data| - 1))
  }

  /** n bits of the data, from bit c on. */
  function Peek(data: seq<byte>, c: nat, n: nat): (r: nat)
    ensures r < Pow2(n)
  {
    Number(data) / Pow2(c) % Pow2(n)
  }

  lemma NumberNext(data: seq<byte>, i: nat)
    requires i < |data|
    ensures Number(data[..i + 1]) == Number(data[..i]) + data[i] * Pow2(8 * i)
  {
    assert data[..i + 1][..i] == data[..i];
  }

  lemma {:induction false} NumberFits(data: seq<byte>)
    ensures Number(data) < Pow2(8 * |data|)
  {
    if data != [] {
      var m := |data| - 1;
      NumberFits(data[..m]);
      Pow2Add(8 * m, 8);
      ByteIs256();
      LastByteFits(Number(data[..m]), data[m], Pow2(8 * m));
      hide Pow2;
      assert 8 * m + 8 == 8 * |data|;
    }
  }

  lemma ByteIs256()
    ensures Pow2(8) == 256
  {
    assert Pow2(4) == 16;
    Pow2Add(4, 4);
  }

  lemma LastByteFits(x: nat, b: byte, p: nat)
    requires x < p
    ensures x + b * p < p * 256
  {
    assert b * p <= 255 * p by { MulMonotone(b, 255, p); }
  }

  lemma MulMonotone(a: nat, b: nat, p: nat)
    requires a <= b
    ensures a * p <= b * p
  {
  }

  /** The data is its first i bytes and something above them. */
  lemma {:induction false} NumberSplits(data: seq<byte>, i: nat) returns (above: nat)
    requires i <= |data|
    ensures Number(data) == Number(data[..i]) + above * Pow2(8 * i)
  {
    if i == |data| {
      assert data[..i] == data;
      above := 0;
    } else {
      var m := |data| - 1;
      var r := NumberSplits(data[..m], i);
      assert data[..m][..i] == data[..i];
      Pow2Add(8 * i, 8 * (m - i));
      above := r + data[m] * Pow2(8 * (m - i));
      Collect(r, data[m], Pow2(8 * i), Pow2(8 * (m - i)));
    }
  }

  lemma Collect(r: nat, d: nat, p: nat, q: nat)
    ensures (r + d * q) * p == r * p + d * (p * q)
  {
  }

  // ----- division by powers of two

  /** Adding a multiple of 2^m at or above bit c does not disturb a shift by c. */
  lemma ShiftOfSum(x: nat, d: nat, c: nat, m: nat)
    requires c <= m
    ensures (x + d * Pow2(m)) / Pow2(c) == x / Pow2(c) + d * Pow2(m - c)
  {
    Pow2Add(c, m - c);
    hide Pow2;
    var p, q := Pow2(c), Pow2(m - c);
    DivOfSum(x, d * q, p);
    Rearrange(d, p, q);
  }

  lemma Rearrange(d: nat, p: nat, q: nat)
    ensures d * (p * q) == p * (d * q)
  {
  }

  lemma DivOfSum(x: nat, y: nat, p: nat)
    requires p > 0
    ensures (x + p * y) / p == x / p + y && (x + p * y) % p == x % p
  {
    assert x + p * y == p * (x / p + y) + x % p;
    ModUnique(x + p * y, p, x / p + y, x % p);
  }

  /** Shifting twice. */
  lemma ShiftTwice(x: nat, c: nat, n: nat)
    ensures x / Pow2(c) / Pow2(n) == x / Pow2(c + n)
  {
    Pow2Add(c, n);
    hide Pow2;
    DivDiv(x, Pow2(c), Pow2(n));
  }

  lemma DivDiv(x: nat, p: nat, q: nat)
    requires p > 0 && q > 0
    ensures x / p / q == x / (p * q)
  {
    var a, r := x / p, x % p;
    var b, s := a / q, a % q;
    assert x == p * a + r && a == q * b + s;
    assert p * (q * b + s) == (p * q) * b + p * s;
    assert p * s + r < p * q by {
      MulMonotone(s + 1, q, p);
      assert (s + 1) * p == p * s + p;
    }
    ModUnique(x, p * q, b, p * s + r);
  }

  // ----- the accumulator

  /** The accumulator holds the next `bits` bits of the data: those from bit c up to byte i. */
  ghost predicate Holds(data: seq<byte>, i: nat, c: nat, hold: nat, bits: nat) {
    && i <= |data|
    && 8 * i == c + bits
    && hold == Number(data[..i]) / Pow2(c)
  }

  /** One more byte goes in above the bits held. */
  lemma PullKeeps(data: seq<byte>, i: nat, c: nat, hold: nat, bits: nat)
    requires Holds(data, i, c, hold, bits) && i < |data|
    ensures Holds(data, i + 1, c, hold + data[i] * Pow2(bits), bits + 8)
  {
    NumberNext(data, i);
    ShiftOfSum(Number(data[..i]), data[i], c, 8 * i);
  }

  /** The lowest n bits are dropped. */
  lemma DropKeeps(data: seq<byte>, i: nat, c: nat, hold: nat, bits: nat, n: nat)
    requires Holds(data, i, c, hold, bits) && n <= bits
    ensures Holds(data, i, c + n, Shr(hold, n), bits - n)
  {
    ShiftTwice(Number(data[..i]), c, n);
  }

  /** Bytes above the accumulator's show only above its bits. */
  lemma AboveShifted(data: seq<byte>, i: nat, c: nat, bits: nat) returns (above: nat)
    requires i <= |data| && 8 * i == c + bits
    ensures Number(data) / Pow2(c) == Number(data[..i]) / Pow2(c) + above * Pow2(bits)
  {
    hide Number, Pow2;
    above := NumberSplits(data, i);
    ShiftOfSum(Number(data[..i]), above, c, 8 * i);
  }

  lemma LowBits(hold: nat, above: nat, bits: nat, n: nat)
    requires n <= bits
    ensures (hold + above * Pow2(bits)) % Pow2(n) == hold % Pow2(n)
  {
    Pow2Add(n, bits - n);
    hide Pow2;
    Rearrange(above, Pow2(n), Pow2(bits - n));
    DivOfSum(hold, above * Pow2(bits - n), Pow2(n));
  }

  /** The lowest n bits held are the next n bits of the data. */
  lemma MaskPeeks(data: seq<byte>, i: nat, c: nat, hold: nat, bits: nat, n: nat)
    requires Holds(data, i, c, hold, bits) && n <= bits
    ensures hold % Pow2(n) == Peek(data, c, n)
  {
    hide Number, Pow2;
    var above := AboveShifted(data, i, c, bits);
    LowBits(hold, above, bits, n);
  }

  /** The accumulator never holds more than its bits. */
  lemma HoldFits(data: seq<byte>, i: nat, c: nat, hold: nat, bits: nat)
    requires Holds(data, i, c, hold, bits)
    ensures hold < Pow2(bits)
  {
    NumberFits(data[..i]);
    Pow2Add(c, bits);
    hide Pow2, Number;
    var x, p, q := Number(data[..i]), Pow2(c), Pow2(bits);
    DivBelow(x, p, q);
  }

  lemma DivBelow(x: nat, p: nat, q: nat)
    requires p > 0 && x < p * q
    ensures x / p < q
  {
    if x / p >= q {
      MulMonotone(q, x / p, p);
    }
  }

  /** Whole bytes are given back, and their bits forgotten. */
  lemma GiveBackKeeps(data: seq<byte>, i: nat, c: nat, hold: nat, bits: nat)
    requires Holds(data, i, c, hold, bits)
    ensures var n := bits / 8;
      n <= i && Holds(data, i - n, c, hold % Pow2(bits - 8 * n), bits - 8 * n)
  {
    hide Number, Pow2;
    var n := bits / 8;
    var j, rest := i - n, bits - 8 * n;
    var above := AboveShifted(data[..i], j, c, rest);
    assert data[..i][..j] == data[..j];
    var kept := Number(data[..j]) / Pow2(c);
    HoldFits(data, j, c, kept, rest);
    LowBits(kept, above, rest, rest);
    SmallMod(kept, Pow2(rest));
  }
}
