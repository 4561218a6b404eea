/** Octets, the exclusive-or of the stream cipher, and the byte orders of the wire formats. */
module Bytes {
  import opened ModArith
  import opened Seqs

  type byte = x: int | 0 <= x < 256

  function Pow2(bits: nat): (p: nat)
    ensures p > 0
  {
    if bits == 0 then 1 else 2 * Pow2(bits - 1)
  }

  /** Exclusive-or of the `bits` lowest bits, bit by bit from the lowest. */
  function XorBits(a: nat, b: nat, bits: nat): (r: nat)
    requires a < Pow2(bits) && b < Pow2(bits)
    ensures r < Pow2(bits)
  {
    if bits == 0 then 0
    else 2 * XorBits(a / 2, b / 2, bits - 1) + (if a % 2 == b % 2 then 0 else 1)
  }

  function Xor(a: byte, b: byte): byte {
    assert Pow2(8) == 256 by { assert Pow2(4) == 16; }
    XorBits(a, b, 8)
  }

  lemma XorBitsStep(a: nat, b: nat, bits: nat)
    requires bits > 0 && a < Pow2(bits) && b < Pow2(bits)
    ensures XorBits(a, b, bits) / 2 == XorBits(a / 2, b / 2, bits - 1)
    ensures XorBits(a, b, bits) % 2 == if a % 2 == b % 2 then 0 else 1
  {
  }

  lemma {:induction false} XorBitsTwice(a: nat, b: nat, bits: nat)
    requires a < Pow2(bits) && b < Pow2(bits)
    ensures XorBits(XorBits(a, b, bits), b, bits) == a
    ensures XorBits(0, b, bits) == b
  {
    if bits > 0 {
      XorBitsTwice(a / 2, b / 2, bits - 1);
      XorBitsStep(a, b, bits);
      XorBitsStep(XorBits(a, b, bits), b, bits);
      XorBitsStep(0, b, bits);
      hide XorBits;
    }
  }

  /** Applying one key byte twice gives the input back; a zero input gives the key byte. */
  lemma XorTwice(a: byte, b: byte)
    ensures Xor(Xor(a, b), b) == a
    ensures Xor(0, b) == b
  {
    assert Pow2(8) == 256 by { assert Pow2(4) == 16; }
    XorBitsTwice(a, b, 8);
  }

  /** Bit `i` of a number, the lowest being bit 0. */
  predicate Bit(n: nat, i: nat) {
    n / Pow2(i) % 2 == 1
  }

  lemma {:induction false} HalfBit(n: nat, i: nat)
    requires i > 0
    ensures Bit(n, i) <==> Bit(n / 2, i - 1)
  {
    DivideTwice(n, Pow2(i - 1));
  }

  lemma DivideTwice(n: nat, p: nat)
    requires p > 0
    ensures n / (2 * p) == n / 2 / p
  {
    var q, r := n / 2 / p, n / 2 % p;
    assert n == 2 * p * q + (2 * r + n % 2);
    assert 2 * r + n % 2 < 2 * p;
    QuotientIs(n, 2 * p, q, 2 * r + n % 2);
  }

  lemma QuotientIs(n: nat, m: nat, q: nat, r: nat)
    requires m > 0 && n == m * q + r && r < m
    ensures n / m == q
  {
    var d := n / m - q;
    assert d * m == r - n % m;
    TimesAtLeast(d, m);
  }

  /** The exclusive-or of two numbers has a bit exactly where they differ. */
  lemma {:induction false} XorBitsAt(a: nat, b: nat, bits: nat, i: nat)
    requires a < Pow2(bits) && b < Pow2(bits) && i < bits
    ensures Bit(XorBits(a, b, bits), i) <==> (Bit(a, i) != Bit(b, i))
    decreases bits
  {
    var r := XorBits(a, b, bits);
    assert r / 2 == XorBits(a / 2, b / 2, bits - 1);
    if i > 0 {
      XorBitsAt(a / 2, b / 2, bits - 1, i - 1);
      hide XorBits, Bit;
      HalfBit(a, i);
      HalfBit(b, i);
      HalfBit(r, i);
    } else {
      assert Pow2(0) == 1;
    }
  }

  /** The bits of `r` are those in which `a` and `b` differ. */
  ghost predicate DifferingBits(r: byte, a: byte, b: byte) {
    forall i :: 0 <= i < 8 ==> (Bit(r, i) <==> (Bit(a, i) != Bit(b, i)))
  }

  /** For bytes, each of the eight bits. */
  lemma XorAt(a: byte, b: byte)
    ensures DifferingBits(Xor(a, b), a, b)
  {
    assert Pow2(8) == 256 by { assert Pow2(4) == 16; }
    forall i | 0 <= i < 8 ensures Bit(Xor(a, b), i) <==> (Bit(a, i) != Bit(b, i)) {
      XorBitsAt(a, b, 8, i);
    }
  }

  function Pow256(k: nat): (p: nat)
    ensures p > 0
  {
    if k == 0 then 1 else 256 * Pow256(k - 1)
  }

  lemma Pow256Values()
    ensures Pow256(1) == 0x100 && Pow256(2) == 0x1_0000
    ensures Pow256(4) == 0x1_0000_0000 && Pow256(8) == 0x1_0000_0000_0000_0000
  {
    assert Pow256(2) == 256 * Pow256(1);
    assert Pow256(4) == 256 * 256 * Pow256(2);
    assert Pow256(6) == 256 * 256 * Pow256(4);
  }

  /** The number whose little-endian bytes are `s`. */
  function FromLE(s: seq<byte>): (n: nat)
    ensures n < Pow256(|s|)
  {
    if |s| == 0 then 0 else s[0] + 256 * FromLE(s[1..])
  }

  /** The low `k` bytes of `n`, lowest first. */
  function ToLE(n: nat, k: nat): (s: seq<byte>)
    ensures |s| == k
  {
    if k == 0 then [] else [n % 256] + ToLE(n / 256, k - 1)
  }

  lemma {:induction false} FromToLE(n: nat, k: nat)
    requires n < Pow256(k)
    ensures FromLE(ToLE(n, k)) == n
  {
    if k > 0 {
      FromToLE(n / 256, k - 1);
      assert ToLE(n, k)[1..] == ToLE(n / 256, k - 1);
    }
  }

  /** The number whose big-endian bytes are `s`. */
  function FromBE(s: seq<byte>): (n: nat)
    ensures n < Pow256(|s|)
  {
    if |s| == 0 then 0 else 256 * FromBE(s[..|s| - 1]) + s[|s| - 1]
  }

  /** The low `k` bytes of `n`, highest first. */
  function ToBE(n: nat, k: nat): (s: seq<byte>)
    ensures |s| == k
  {
    if k == 0 then [] else ToBE(n / 256, k - 1) + [n % 256]
  }

  lemma {:induction false} FromToBE(n: nat, k: nat)
    requires n < Pow256(k)
    ensures FromBE(ToBE(n, k)) == n
  {
    if k > 0 {
      FromToBE(n / 256, k - 1);
      assert ToBE(n, k)[..k - 1] == ToBE(n / 256, k - 1);
    }
  }

  lemma {:induction false} ToFromBE(s: seq<byte>)
    ensures ToBE(FromBE(s), |s|) == s
  {
    if |s| > 0 {
      ToFromBE(s[..|s| - 1]);
      assert s == s[..|s| - 1] + [s[|s| - 1]];
    }
  }

  lemma LastByte(s: seq<byte>)
    requires |s| > 0
    ensures FromBE(s) == 256 * FromBE(s[..|s| - 1]) + s[|s| - 1] && Pow256(|s|) == 256 * Pow256(|s| - 1)
  {
  }

  /** A big-endian number by its halves. */
  lemma {:induction false} FromBEHalves(a: seq<byte>, b: seq<byte>)
    ensures FromBE(a + b) == FromBE(a) * Pow256(|b|) + FromBE(b)
    decreases |b|
  {
    if |b| == 0 {
      assert a + b == a;
    } else {
      hide FromBE, Pow256;
      LastByte(a + b);
      LastByte(b);
      var c := b[..|b| - 1];
      assert (a + b)[..|a + b| - 1] == a + c;
      FromBEHalves(a, c);
      TimesByte(FromBE(a), Pow256(|c|));
    }
  }

  lemma TimesByte(x: nat, p: nat)
    ensures x * (256 * p) == 256 * (x * p)
  {
  }

  /** Byte `i` of a little-endian number has the weight 256 to the power `i`. */
  lemma {:induction false} ByteOfLE(s: seq<byte>, i: nat)
    requires i < |s|
    ensures FromLE(s) / Pow256(i) % 256 == s[i]
    decreases i
  {
    if i > 0 {
      ByteOfLE(s[1..], i - 1);
      assert FromLE(s) / 256 == FromLE(s[1..]);
      DivideBy256(FromLE(s), Pow256(i - 1));
    }
  }

  /** In a big-endian number that is the weight of byte `i` from the end. */
  lemma {:induction false} ByteOfBE(s: seq<byte>, i: nat)
    requires i < |s|
    ensures FromBE(s) / Pow256(i) % 256 == s[|s| - 1 - i]
    decreases i
  {
    if i > 0 {
      ByteOfBE(s[..|s| - 1], i - 1);
      assert FromBE(s) / 256 == FromBE(s[..|s| - 1]);
      DivideBy256(FromBE(s), Pow256(i - 1));
    }
  }

  lemma DivideBy256(n: nat, p: nat)
    requires p > 0
    ensures n / (256 * p) == n / 256 / p
  {
    var q, r := n / 256 / p, n / 256 % p;
    assert n == 256 * p * q + (256 * r + n % 256);
    assert 256 * r + n % 256 < 256 * p;
    QuotientIs(n, 256 * p, q, 256 * r + n % 256);
  }

  /** A 32-bit pattern read as a C `int`. */
  function AsInt32(u: nat): int
    requires u < 0x1_0000_0000
  {
    if u < 0x8000_0000 then u else u - 0x1_0000_0000
  }

  /** A 16-bit pattern read as a C `short`. */
  function AsInt16(u: nat): int
    requires u < 0x1_0000
  {
    if u < 0x8000 then u else u - 0x1_0000
  }

  /** Both keep the pattern, and their highest bit is the sign. */
  lemma PatternsAreKept(u: nat)
    ensures u < 0x1_0000_0000 ==> AsInt32(u) % 0x1_0000_0000 == u && -0x8000_0000 <= AsInt32(u) < 0x8000_0000
    ensures u < 0x1_0000 ==> AsInt16(u) % 0x1_0000 == u && -0x8000 <= AsInt16(u) < 0x8000
  {
  }

  /** All pieces end to end. */
  function Flatten(pieces: seq<seq<byte>>): seq<byte> {
    if |pieces| == 0 then [] else pieces[0] + Flatten(pieces[1..])
  }

  /** `memcpy` between two buffers. */
  method Copy(src: array<byte>, srcAt: nat, dst: array<byte>, dstAt: nat, len: nat)
    requires src != dst
    requires srcAt + len <= src.Length && dstAt + len <= dst.Length
    modifies dst
    ensures dst[..] == Splice(old(dst[..]), dstAt, src[srcAt..srcAt + len])
  {
    var i := 0;
    while i < len
      invariant 0 <= i <= len
      invariant forall j :: dstAt <= j < dstAt + i ==> dst[j] == src[srcAt + j - dstAt]
      invariant forall j :: 0 <= j < dstAt || dstAt + i <= j < dst.Length ==> dst[j] == old(dst[j])
    {
      dst[dstAt + i] := src[srcAt + i];
      i := i + 1;
    }
  }
}
