/** Unsigned numbers in network byte order, and two's complement. */
module BigEndian {
  import opened Bitwise

  function Pow256(n: nat): (r: nat)
    ensures r > 0
  {
    if n == 0 then 1 else 256 * Pow256(n - 1)
  }

  /** v as n bytes, most significant first. */
  function Bytes(v: nat, n: nat): (r: seq<byte>)
    ensures |r| == n
  {
    if n == 0 then [] else Bytes(v / 256, n - 1) + [v % 256]
  }

  function Number(b: seq<byte>): nat {
    if b == [] then 0 else Number(b[..|b| - 1]) * 256 + b[|b| - 1]
  }

  lemma {:induction false} NumberOfBytes(v: nat, n: nat)
    requires v < Pow256(n)
    ensures Number(Bytes(v, n)) == v
  {
    if n > 0 {
      var front := Bytes(v / 256, n - 1);
      NumberOfBytes(v / 256, n - 1);
      assert (front + [v % 256])[..n - 1] == front;
    }
  }

  /** Byte k counts multiples of 256^(n-1-k). */
  lemma {:induction false} ByteOf(v: nat, n: nat, k: nat)
    requires k < n
    ensures Bytes(v, n)[k] == v / Pow256(n - 1 - k) % 256
  {
    if k < n - 1 {
      ByteOf(v / 256, n - 1, k);
      assert Bytes(v, n)[k] == Bytes(v / 256, n - 1)[k];
      DivTwice(v, Pow256(n - 2 - k));
    }
  }

  lemma DivTwice(v: nat, p: nat)
    requires p > 0
    ensures v / 256 / p == v / (256 * p)
  {
    var a, r := v / 256, v % 256;
    var b, s := a / p, a % p;
    assert v == 256 * (p * b + s) + r;
    assert v == (256 * p) * b + (256 * s + r) && 0 <= 256 * s + r < 256 * p;
    ModUnique(v, 256 * p, b, 256 * s + r);
  }

  lemma {:induction false} NumberFits(b: seq<byte>)
    ensures Number(b) < Pow256(|b|)
  {
    if b != [] {
      NumberFits(b[..|b| - 1]);
    }
  }

  lemma Pow256Values()
    ensures Pow256(2) == 0x1_0000 && Pow256(4) == 0x1_0000_0000 && Pow256(8) == 0x1_0000_0000_0000_0000
  {
    assert Pow256(1) == 256 && Pow256(2) == 0x1_0000 && Pow256(3) == 0x100_0000;
    assert Pow256(5) == 256 * Pow256(4) && Pow256(6) == 256 * Pow256(5) && Pow256(7) == 256 * Pow256(6);
  }

  /** The low n bytes of a two's complement number. */
  function Low(v: int, n: nat): (r: nat)
    ensures r < Pow256(n)
  {
    v % Pow256(n)
  }

  /** n bytes read as a signed number. */
  function Signed(u: nat, n: nat): int {
    var w: int := u;
    if 2 * w < Pow256(n) then w else w - Pow256(n)
  }

  /** The range of n-byte two's complement. */
  predicate InRange(v: int, n: nat) {
    0 <= 2 * v + Pow256(n) && 2 * v < Pow256(n)
  }

  lemma SignedOfLow(v: int, n: nat)
    requires InRange(v, n)
    ensures Signed(Low(v, n), n) == v
  {
    hide Pow256;
    var p := Pow256(n);
    if v >= 0 {
      ModUnique(v, p, 0, v);
    } else {
      ModUnique(v, p, -1, v + p);
    }
  }

  lemma ReadsBack(v: int, n: nat)
    requires InRange(v, n)
    ensures Signed(Number(Bytes(Low(v, n), n)), n) == v
  {
    NumberOfBytes(Low(v, n), n);
    SignedOfLow(v, n);
  }
}
