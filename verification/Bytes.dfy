/** Bytes, little-endian numbers and bitwise exclusive or. */
module Bytes {
  import opened Prelude

  type byte = x: int | 0 <= x < 256

  function Pow256(n: nat): (r: nat)
    ensures r > 0
  {
    if n == 0 then 1 else 256 * Pow256(n - 1)
  }

  /** The low `n` bytes of `v`, least significant first. */
  function ToLe(v: nat, n: nat): (r: seq<byte>)
    ensures |r| == n
  {
    if n == 0 then [] else [v % 256] + ToLe(v / 256, n - 1)
  }

  function FromLe(b: seq<byte>): nat {
    if b == [] then 0 else b[0] + 256 * FromLe(b[1..])
  }

  /** Numbers that fit survive the trip through their little-endian bytes. */
  lemma {:induction false} FromToLe(v: nat, n: nat)
    requires v < Pow256(n)
    ensures FromLe(ToLe(v, n)) == v
  {
    if n > 0 {
      FromToLe(v / 256, n - 1);
      assert ([v % 256] + ToLe(v / 256, n - 1))[1..] == ToLe(v / 256, n - 1);
    }
  }

  lemma SplitLow(low: byte, rest: nat)
    ensures (low + 256 * rest) % 256 == low && (low + 256 * rest) / 256 == rest
  {
  }

  /** `n` bytes are the little-endian form of the number they stand for. */
  lemma {:induction false} ToFromLe(b: seq<byte>)
    ensures FromLe(b) < Pow256(|b|)
    ensures ToLe(FromLe(b), |b|) == b
  {
    if b != [] {
      ToFromLe(b[1..]);
      SplitLow(b[0], FromLe(b[1..]));
      assert [b[0]] + b[1..] == b;
    }
  }

  lemma WordSizes()
    ensures Pow256(4) == 0x1_0000_0000
    ensures Pow256(8) == 0x1_0000_0000_0000_0000
  {
    assert Pow256(4) == 256 * 256 * 256 * 256;
    assert Pow256(8) == 256 * 256 * 256 * 256 * Pow256(4);
  }

  function Pow2(n: nat): (r: nat)
    ensures r > 0
  {
    if n == 0 then 1 else 2 * Pow2(n - 1)
  }

  /** Exclusive or of the low `n` bits, bit by bit. */
  function XorBits(a: nat, b: nat, n: nat): (r: nat)
    ensures r < Pow2(n)
  {
    if n == 0 then 0 else (a + b) % 2 + 2 * XorBits(a / 2, b / 2, n - 1)
  }

  function Xor(a: byte, b: byte): byte {
    assert Pow2(8) == 256;
    XorBits(a, b, 8)
  }

  lemma {:induction false} XorBitsCancel(a: nat, b: nat, n: nat)
    requires b < Pow2(n)
    ensures XorBits(XorBits(a, b, n), a, n) == b
  {
    if n > 0 {
      var c, r := (a + b) % 2, XorBits(a / 2, b / 2, n - 1);
      Halves(b, Pow2(n - 1));
      XorBitsCancel(a / 2, b / 2, n - 1);
      XorOfBit(c, r, a, n);
      BitCancels(a, b);
    }
  }

  lemma XorOfBit(c: nat, r: nat, a: nat, n: nat)
    requires c < 2 && n > 0
    ensures XorBits(c + 2 * r, a, n) == (c + a) % 2 + 2 * XorBits(r, a / 2, n - 1)
  {
    LowBit(c, r, a);
  }

  lemma Halves(b: nat, m: nat)
    requires b < 2 * m
    ensures b / 2 < m && b == b % 2 + 2 * (b / 2)
  {
  }

  lemma LowBit(c: nat, r: nat, a: nat)
    requires c < 2
    ensures (c + 2 * r) / 2 == r && (c + 2 * r + a) % 2 == (c + a) % 2
  {
  }

  lemma BitCancels(a: nat, b: nat)
    ensures ((a + b) % 2 + a) % 2 == b % 2
  {
  }

  /** Combining twice with the same byte gives back the other. */
  lemma XorCancels(a: byte, b: byte)
    ensures Xor(Xor(a, b), a) == b
  {
    assert Pow2(8) == 256;
    XorBitsCancel(a, b, 8);
  }

  /** The value of each little-endian byte. */
  lemma {:induction false} LittleEndian(v: nat, n: nat, k: nat)
    requires k < n
    ensures ToLe(v, n)[k] == (v / Pow256(k)) % 256
  {
    if k > 0 {
      LittleEndian(v / 256, n - 1, k - 1);
      DivTwice(v, Pow256(k - 1));
    }
  }

  lemma DivTwice(v: nat, m: nat)
    requires m > 0
    ensures v / (256 * m) == (v / 256) / m
  {
    var q, r := v / 256, v % 256;
    var a, b := q / m, q % m;
    assert v == 256 * (a * m + b) + r;
    assert 0 <= 256 * b + r < 256 * m;
    QuotientIs(v, 256 * m, a, 256 * b + r);
  }

  lemma HalveTwice(v: nat, m: nat)
    requires m > 0
    ensures v / (2 * m) == (v / 2) / m
  {
    var q, r := v / 2, v % 2;
    var a, b := q / m, q % m;
    assert v == 2 * (a * m + b) + r;
    assert 0 <= 2 * b + r < 2 * m;
    QuotientIs(v, 2 * m, a, 2 * b + r);
  }

  /** A bit of the combination is set exactly where the bits of the two differ. */
  lemma {:induction false} XorBit(a: nat, b: nat, n: nat, k: nat)
    requires k < n
    ensures (XorBits(a, b, n) / Pow2(k)) % 2 == 1 <==> (a / Pow2(k)) % 2 != (b / Pow2(k)) % 2
  {
    LowBit((a + b) % 2, XorBits(a / 2, b / 2, n - 1), 0);
    if k > 0 {
      XorBit(a / 2, b / 2, n - 1, k - 1);
      HalveTwice(XorBits(a, b, n), Pow2(k - 1));
      HalveTwice(a, Pow2(k - 1));
      HalveTwice(b, Pow2(k - 1));
    } else {
      LowBits(a, b);
    }
  }

  lemma LowBits(a: nat, b: nat)
    ensures (a + b) % 2 == 1 <==> a % 2 != b % 2
  {
  }
}
