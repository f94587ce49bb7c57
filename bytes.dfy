/**
 * Octets and the big-endian (network byte order) integers of RFC 6455
 * section 5.2: the extended payload length is an unsigned integer written
 * most significant byte first.
 */
module Bytes {

  /** An octet, as the integer it denotes. */
  type byte = b: int | 0 <= b < 256

  /** Bitwise exclusive or of the low `n` bits of `a` and `b`, least significant bit first. */
  function XorBits(a: nat, b: nat, n: nat): (r: nat)
    ensures r < Pow2(n)
  {
    if n == 0 then 0
    else (if a % 2 == b % 2 then 0 else 1) + 2 * XorBits(a / 2, b / 2, n - 1)
  }

  function Pow2(n: nat): (r: nat)
    ensures r >= 1
  {
    if n == 0 then 1 else 2 * Pow2(n - 1)
  }

  /** Bitwise exclusive or of two octets (PHP's `^` on one-character strings). */
  function Xor(a: byte, b: byte): (r: byte)
    ensures r == 0 <==> a == b
  {
    assert Pow2(8) == 256;
    XorBitsSelf(a, b, 8);
    XorBits(a, b, 8)
  }

  /** The n-bit exclusive or of two n-bit numbers is zero exactly when they are equal. */
  lemma {:induction false} XorBitsSelf(a: nat, b: nat, n: nat)
    requires a < Pow2(n) && b < Pow2(n)
    ensures XorBits(a, b, n) == 0 <==> a == b
  {
    if n > 0 {
      XorBitsSelf(a / 2, b / 2, n - 1);
      assert a == 2 * (a / 2) + a % 2 && b == 2 * (b / 2) + b % 2;
    }
  }

  /** XOR with the same bits twice gives back a number that fits in those bits. */
  lemma {:induction false} XorBitsTwice(a: nat, k: nat, n: nat)
    requires a < Pow2(n)
    ensures XorBits(XorBits(a, k, n), k, n) == a
  {
    if n > 0 {
      var y := XorBits(a / 2, k / 2, n - 1);
      var x := XorBits(a, k, n);
      assert x == (if a % 2 == k % 2 then 0 else 1) + 2 * y;
      assert x % 2 == (if a % 2 == k % 2 then 0 else 1);
      assert x / 2 == y;
      XorBitsTwice(a / 2, k / 2, n - 1);
    }
  }

  /** Zero is the identity of the n-bit exclusive or. */
  lemma {:induction false} XorBitsZero(a: nat, n: nat)
    requires a < Pow2(n)
    ensures XorBits(a, 0, n) == a
  {
    if n > 0 {
      XorBitsZero(a / 2, n - 1);
    }
  }

  /** A zero mask byte leaves a byte as it is. */
  lemma XorZero(a: byte)
    ensures Xor(a, 0) == a
  {
    XorBitsZero(a, 8);
  }

  /** XOR with the same octet twice is the identity: this is what makes masking reversible. */
  lemma XorTwice(a: byte, k: byte)
    ensures Xor(Xor(a, k), k) == a
  {
    XorBitsTwice(a, k, 8);
    assert Pow2(8) == 256;
  }

  /** 256 to the power n: the number of values a field of n bytes can hold. */
  function Pow256(n: nat): (r: nat)
    ensures r >= 1
  {
    if n == 0 then 1 else 256 * Pow256(n - 1)
  }

  /** The unsigned integer that the bytes `s` denote, most significant byte first. */
  function BeValue(s: seq<byte>): (v: nat)
    ensures v < Pow256(|s|)
  {
    if s == [] then 0
    else
      var high := BeValue(s[..|s| - 1]);
      assert high <= Pow256(|s| - 1) - 1;
      assert high * 256 <= Pow256(|s| - 1) * 256 - 256;
      high * 256 + s[|s| - 1]
  }

  /** The `width`-byte big-endian representation of `n`. */
  function BeBytes(n: nat, width: nat): (s: seq<byte>)
    requires n < Pow256(width)
    ensures |s| == width
    ensures BeValue(s) == n
  {
    if width == 0 then []
    else
      DivBound(n, Pow256(width - 1));
      var init := BeBytes(n / 256, width - 1);
      var low := init + [n % 256];
      assert low[..width - 1] == init;
      low
  }

  /** Dropping the last byte of a number below 256 * p leaves a number below p. */
  lemma DivBound(n: nat, p: nat)
    requires n < 256 * p
    ensures n / 256 < p
    ensures n / 256 * 256 + n % 256 == n
  {
  }

  /** A byte 1 followed by zeros: BeValue([0, ..., 0, 1, 0, ..., 0]) is 256 to the number of trailing zeros. */
  lemma {:induction false} BeValueOfPrefix(s: seq<byte>, n: nat)
    requires 2 <= n <= |s|
    requires s[0] == 0 && s[1] == 1 && forall k :: 2 <= k < |s| ==> s[k] == 0
    ensures BeValue(s[..n]) == Pow256(n - 2)
  {
    if n == 2 {
      assert s[..n][..1] == [0];
    } else {
      BeValueOfPrefix(s, n - 1);
      assert s[..n][..n - 1] == s[..n - 1];
    }
  }

  /** Reading a field and writing it back at the same width gives the same bytes. */
  lemma {:induction false} BeBytesOfValue(s: seq<byte>)
    ensures BeBytes(BeValue(s), |s|) == s
  {
    if s != [] {
      var init := s[..|s| - 1];
      BeBytesOfValue(init);
      var v := BeValue(s);
      assert v / 256 == BeValue(init);
      assert v % 256 == s[|s| - 1];
      assert s == init + [s[|s| - 1]];
    }
  }

  /** Two fields of the same width that denote the same number are the same bytes. */
  lemma BeValueInjective(s: seq<byte>, t: seq<byte>)
    requires |s| == |t| && BeValue(s) == BeValue(t)
    ensures s == t
  {
    BeBytesOfValue(s);
    BeBytesOfValue(t);
  }
}
