/** Bytes as numbers below 256, exclusive or, and big-endian integers. */
module Bytes {

  type byte = x: int | 0 <= x < 256

  datatype Option<+T> = None | Some(value: T)

  lemma SliceOfSlice<T>(s: seq<T>, a: nat, b: nat, c: nat, d: nat)
    requires a <= b <= |s| && c <= d <= b - a
    ensures s[a..b][c..d] == s[a + c..a + d]
  {
    forall k | 0 <= k < d - c
      ensures s[a..b][c..d][k] == s[a + c..a + d][k]
    {
      assert s[a..b][c + k] == s[a + c + k];
    }
  }

  // ----- Exclusive or

  /** Bitwise exclusive or, one binary digit at a time. */
  function Xor(a: nat, b: nat): nat {
    if a == 0 && b == 0 then 0 else 2 * Xor(a / 2, b / 2) + (a + b) % 2
  }

  function Pow2(n: nat): (r: nat)
    ensures r > 0
  {
    if n == 0 then 1 else 2 * Pow2(n - 1)
  }

  lemma {:induction false} XorBound(a: nat, b: nat, n: nat)
    requires a < Pow2(n) && b < Pow2(n)
    ensures Xor(a, b) < Pow2(n)
  {
    if n > 0 {
      XorBound(a / 2, b / 2, n - 1);
    }
  }

  lemma XorDigits(a: nat, b: nat)
    ensures Xor(a, b) / 2 == Xor(a / 2, b / 2) && Xor(a, b) % 2 == (a + b) % 2
  {
  }

  /** Binary digit `k` of `n`, the least significant first. */
  function Digit(n: nat, k: nat): nat {
    if k == 0 then n % 2 else Digit(n / 2, k - 1)
  }

  /** Exclusive or adds the digits modulo 2. */
  lemma {:induction false} XorDigit(a: nat, b: nat, k: nat)
    ensures Digit(Xor(a, b), k) == (Digit(a, k) + Digit(b, k)) % 2
  {
    XorDigits(a, b);
    if k > 0 {
      XorDigit(a / 2, b / 2, k - 1);
    }
  }

  lemma ParityCancels(x: nat, a: nat, b: nat)
    requires x % 2 == (a + b) % 2
    ensures (x + b) % 2 == a % 2
  {
  }

  lemma {:induction false} XorInvolutive(a: nat, b: nat)
    ensures Xor(Xor(a, b), b) == a
  {
    if a != 0 || b != 0 {
      XorInvolutive(a / 2, b / 2);
      XorDigits(a, b);
      XorDigits(Xor(a, b), b);
      ParityCancels(Xor(a, b), a, b);
    }
  }

  lemma {:induction false} XorSame(a: nat)
    ensures Xor(a, a) == 0
  {
    if a != 0 {
      XorSame(a / 2);
    }
  }

  lemma EightBits()
    ensures Pow2(8) == 256
  {
  }

  lemma SixteenBits()
    ensures Pow2(16) == 0x1_0000
  {
    assert Pow2(4) == 16;
    assert Pow2(8) == 256;
    assert Pow2(12) == 4096;
  }

  function XorByte(a: byte, b: byte): byte {
    EightBits();
    XorBound(a, b, 8);
    Xor(a, b)
  }

  /** `data` with byte `i` xored with byte `i % |mask|` of `mask`. */
  function XorMask(data: seq<byte>, mask: seq<byte>): (r: seq<byte>)
    requires |mask| > 0
    ensures |r| == |data|
  {
    seq(|data|, i requires 0 <= i < |data| => XorByte(data[i], mask[i % |mask|]))
  }

  /** `x` is the exclusive or of `a` and `b`, digit by digit. */
  ghost predicate IsXor(x: nat, a: nat, b: nat) {
    forall k: nat :: Digit(x, k) == (Digit(a, k) + Digit(b, k)) % 2
  }

  lemma XorIsXor(a: nat, b: nat)
    ensures IsXor(Xor(a, b), a, b)
  {
    forall k: nat
      ensures Digit(Xor(a, b), k) == (Digit(a, k) + Digit(b, k)) % 2
    {
      XorDigit(a, b, k);
    }
  }

  /** A mask repeats over the data, and acts on every byte digit by digit. */
  lemma XorMaskDigits(data: seq<byte>, mask: seq<byte>, i: nat)
    requires |mask| > 0 && i < |data|
    ensures IsXor(XorMask(data, mask)[i], data[i], mask[i % |mask|])
  {
    XorIsXor(data[i], mask[i % |mask|]);
  }

  lemma XorMaskInvolutive(data: seq<byte>, mask: seq<byte>)
    requires |mask| > 0
    ensures XorMask(XorMask(data, mask), mask) == data
  {
    forall i | 0 <= i < |data|
      ensures XorByte(XorByte(data[i], mask[i % |mask|]), mask[i % |mask|]) == data[i]
    {
      XorInvolutive(data[i], mask[i % |mask|]);
    }
  }

  // ----- Big-endian integers

  /** The integer with big-endian bytes `s`. */
  function FromBe(s: seq<byte>): nat {
    if s == [] then 0 else FromBe(s[..|s| - 1]) * 256 + s[|s| - 1]
  }

  /** The low `width` bytes of `n`, big-endian: what `n as uN` followed by `to_be_bytes` gives. */
  function ToBe(n: nat, width: nat): (s: seq<byte>)
    ensures |s| == width
  {
    if width == 0 then [] else ToBe(n / 256, width - 1) + [n % 256]
  }

  function Pow256(width: nat): (r: nat)
    ensures r > 0
  {
    if width == 0 then 1 else 256 * Pow256(width - 1)
  }

  lemma {:induction false} FromToBe(n: nat, width: nat)
    requires n < Pow256(width)
    ensures FromBe(ToBe(n, width)) == n
  {
    if width > 0 {
      FromToBe(n / 256, width - 1);
      assert ToBe(n, width)[..width - 1] == ToBe(n / 256, width - 1);
    }
  }

  lemma {:induction false} ToFromBe(s: seq<byte>)
    ensures ToBe(FromBe(s), |s|) == s
  {
    if s != [] {
      ToFromBe(s[..|s| - 1]);
      assert s == s[..|s| - 1] + [s[|s| - 1]];
    }
  }

  lemma {:induction false} FromBeBound(s: seq<byte>)
    ensures FromBe(s) < Pow256(|s|)
  {
    if s != [] {
      FromBeBound(s[..|s| - 1]);
    }
  }

  lemma Pow256Values()
    ensures Pow256(1) == 0x100 && Pow256(2) == 0x1_0000 && Pow256(4) == 0x1_0000_0000
    ensures Pow256(8) == 0x1_0000_0000_0000_0000
  {
  }
}
