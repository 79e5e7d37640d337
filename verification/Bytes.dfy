/** Bytes and little-endian numbers. */
module Bytes {
  type byte = n: int | 0 <= n < 256

  /** Exclusive or of the `k` low bits of two numbers. */
  function XorBits(a: nat, b: nat, k: nat): (r: nat)
    ensures r < Pow2(k)
  {
    if k == 0 then 0 else (a % 2 + b % 2) % 2 + 2 * XorBits(a / 2, b / 2, k - 1)
  }

  ghost function Pow2(k: nat): (r: nat)
    ensures r > 0
  {
    if k == 0 then 1 else 2 * Pow2(k - 1)
  }

  lemma Pow2Eight()
    ensures Pow2(8) == 256
  {
    assert Pow2(4) == 16;
  }

  function Xor(a: byte, b: byte): byte {
    Pow2Eight();
    XorBits(a, b, 8)
  }

  lemma Halves(low: nat, high: nat)
    requires low < 2
    ensures (low + 2 * high) % 2 == low && (low + 2 * high) / 2 == high
  {
  }

  lemma XorBitsUnfold(a: nat, b: nat, k: nat)
    requires k > 0
    ensures XorBits(a, b, k) == (a % 2 + b % 2) % 2 + 2 * XorBits(a / 2, b / 2, k - 1)
    ensures a < Pow2(k) ==> a / 2 < Pow2(k - 1)
  {
  }

  lemma XorBitsNone(a: nat, b: nat)
    ensures XorBits(a, b, 0) == 0 && (a < Pow2(0) ==> a == 0)
  {
  }

  lemma LowBit(a: nat, b: nat)
    ensures ((a % 2 + b % 2) % 2 + b % 2) % 2 == a % 2 && a == a % 2 + 2 * (a / 2)
  {
  }

  lemma {:induction false} XorBitsTwice(a: nat, b: nat, k: nat)
    requires a < Pow2(k)
    ensures XorBits(XorBits(a, b, k), b, k) == a
  {
    hide *;
    if k == 0 {
      XorBitsNone(a, b);
    } else {
      var low: nat, high: nat := (a % 2 + b % 2) % 2, XorBits(a / 2, b / 2, k - 1);
      XorBitsUnfold(a, b, k);
      Halves(low, high);
      XorBitsUnfold(low + 2 * high, b, k);
      XorBitsTwice(a / 2, b / 2, k - 1);
      LowBit(a, b);
    }
  }

  lemma {:induction false} XorBitsZero(a: nat, k: nat)
    requires a < Pow2(k)
    ensures XorBits(a, 0, k) == a
  {
    if k > 0 {
      XorBitsUnfold(a, 0, k);
      XorBitsZero(a / 2, k - 1);
    }
  }

  /** Masking a byte twice with the same key byte gives it back; a zero key masks nothing. */
  lemma XorTwice(a: byte, b: byte)
    ensures Xor(Xor(a, b), b) == a && Xor(a, 0) == a
  {
    Pow2Eight();
    XorBitsTwice(a, b, 8);
    XorBitsZero(a, 8);
  }

  ghost predicate Bit(n: nat, i: nat) {
    n / Pow2(i) % 2 == 1
  }

  lemma BitHalves(n: nat, i: nat)
    ensures Pow2(i) > 0 && Pow2(i + 1) == 2 * Pow2(i)
    ensures Bit(n, i + 1) <==> Bit(n / 2, i)
    ensures Bit(n, 0) <==> n % 2 == 1
  {
    DivTwice(n, Pow2(i));
  }

  lemma DivTwice(n: nat, d: nat)
    requires d > 0
    ensures n / (2 * d) == n / 2 / d
  {
    var q, r := n / 2 / d, n / 2 % d;
    assert n == 2 * (q * d + r) + n % 2;
    assert n == q * (2 * d) + (2 * r + n % 2) && 0 <= 2 * r + n % 2 < 2 * d;
    DivMod(n, 2 * d, q, 2 * r + n % 2);
  }

  lemma DivMod(n: nat, d: nat, q: nat, r: nat)
    requires d > 0 && n == q * d + r && r < d
    ensures n / d == q && n % d == r
  {
    assert n == (n / d) * d + n % d;
    assert (n / d - q) * d == r - n % d;
    SmallMultiple(n / d - q, d, r - n % d);
  }

  lemma SmallMultiple(k: int, d: int, x: int)
    requires k * d == x && -d < x < d
    ensures k == 0 && x == 0
  {
    assert k >= 1 ==> k * d >= d;
    assert k <= -1 ==> k * d <= -d;
  }

  /** A bit of the exclusive or is set exactly if the bits differ. */
  lemma {:induction false} XorBitsAt(a: nat, b: nat, k: nat, i: nat)
    requires i < k
    ensures Bit(XorBits(a, b, k), i) <==> Bit(a, i) != Bit(b, i)
  {
    hide Bit, Pow2;
    var low: nat, high: nat := (a % 2 + b % 2) % 2, XorBits(a / 2, b / 2, k - 1);
    Halves(low, high);
    if i > 0 {
      XorBitsAt(a / 2, b / 2, k - 1, i - 1);
      BitHalves(XorBits(a, b, k), i - 1);
      BitHalves(a, i - 1);
      BitHalves(b, i - 1);
    } else {
      BitHalves(XorBits(a, b, k), 0);
      BitHalves(a, 0);
      BitHalves(b, 0);
    }
  }

  lemma XorAt(a: byte, b: byte, i: nat)
    requires i < 8
    ensures Bit(Xor(a, b), i) <==> Bit(a, i) != Bit(b, i)
  {
    hide XorBits;
    XorBitsAt(a, b, 8, i);
  }

  ghost function Pow256(k: nat): nat {
    if k == 0 then 1 else 256 * Pow256(k - 1)
  }

  /** The `k` low bytes of `n`, least significant first. */
  function ToLe(n: nat, k: nat): (r: seq<byte>)
    ensures |r| == k
  {
    if k == 0 then [] else [n % 256] + ToLe(n / 256, k - 1)
  }

  function FromLe(s: seq<byte>): nat {
    if s == [] then 0 else s[0] + 256 * FromLe(s[1..])
  }

  lemma {:induction false} LeRoundTrip(n: nat, k: nat)
    requires n < Pow256(k)
    ensures FromLe(ToLe(n, k)) == n
  {
    if k > 0 {
      LeRoundTrip(n / 256, k - 1);
      assert ToLe(n, k)[1..] == ToLe(n / 256, k - 1);
    }
  }

  lemma {:induction false} FromLeBound(s: seq<byte>)
    ensures FromLe(s) < Pow256(|s|)
  {
    if s != [] {
      FromLeBound(s[1..]);
    }
  }

  /** Reading and writing are inverse in both directions, so an encoding is read back from its own bytes only. */
  lemma {:induction false} LeUnique(s: seq<byte>)
    ensures ToLe(FromLe(s), |s|) == s
  {
    if s != [] {
      LeUnique(s[1..]);
      assert FromLe(s) % 256 == s[0] && FromLe(s) / 256 == FromLe(s[1..]);
      assert s == [s[0]] + s[1..];
    }
  }

  /** Place `i` of the little-endian bytes of a number counts multiples of 256 to the power of `i`. */
  lemma {:induction false} LeAt(n: nat, k: nat, i: nat)
    requires i < k
    ensures Pow256(i) > 0 && ToLe(n, k)[i] == n / Pow256(i) % 256
  {
    if i > 0 {
      LeAt(n / 256, k - 1, i - 1);
      DivShift(n, Pow256(i - 1));
      assert ToLe(n, k)[i] == ToLe(n / 256, k - 1)[i - 1];
    }
  }

  lemma DivShift(n: nat, d: nat)
    requires d > 0
    ensures n / (256 * d) == n / 256 / d
  {
    var q, r := n / 256 / d, n / 256 % d;
    assert n == 256 * (q * d + r) + n % 256;
    assert n == q * (256 * d) + (256 * r + n % 256) && 0 <= 256 * r + n % 256 < 256 * d;
    DivMod(n, 256 * d, q, 256 * r + n % 256);
  }

  lemma Pow256Four()
    ensures Pow256(4) == 0x1_0000_0000
  {
    assert Pow256(2) == 0x1_0000;
  }

  lemma Pow256Eight()
    ensures Pow256(8) == 0x1_0000_0000_0000_0000
  {
    assert Pow256(2) == 0x1_0000;
    assert Pow256(4) == 0x1_0000_0000;
    assert Pow256(6) == 0x1_0000_0000_0000;
  }
}
