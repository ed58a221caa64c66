/**
  Byte-level arithmetic shared by the encoder: the byte type of the output
  buffer, little-endian stores of n-byte integers, two's-complement reading,
  bit tests and bitwise OR on small unsigned values, optional values, and in-place writes of a
  run of bytes into a buffer image.
*/
module Bits {

  /** An unsigned 8-bit value: one cell of the output buffer. */
  type byte = x: int | 0 <= x < 256

  /** An optional value: an absent register, or a failed parse. */
  datatype Option<T> = None | Some(value: T)

  function Pow256(n: nat): (p: nat)
    ensures p >= 1
  {
    if n == 0 then 1 else 256 * Pow256(n - 1)
  }

  function Pow2(n: nat): (p: nat)
    ensures p >= 1
  {
    if n == 0 then 1 else 2 * Pow2(n - 1)
  }

  /** The n bytes of `v` modulo 256^n, least significant first: what an n-byte
      store of `v` leaves in memory on a little-endian machine. */
  function LittleEndian(v: int, n: nat): (bs: seq<byte>)
    ensures |bs| == n
    decreases n
  {
    if n == 0 then [] else [v % 256] + LittleEndian(v / 256, n - 1)
  }

  /** The unsigned value of a little-endian byte string. */
  function FromLittleEndian(bs: seq<byte>): (v: nat)
    ensures v < Pow256(|bs|)
  {
    if bs == [] then 0 else bs[0] + 256 * FromLittleEndian(bs[1..])
  }

  /** The two's-complement value of an n-byte unsigned quantity. */
  function Signed(u: nat, n: nat): (v: int)
    requires u < Pow256(n)
    ensures -(Pow256(n) as int) < v < Pow256(n)
  {
    if 2 * u < Pow256(n) then u else u - Pow256(n)
  }

  /** The integer range of an n-byte two's-complement quantity. */
  predicate FitsSigned(v: int, n: nat)
  {
    -(Pow256(n) as int) <= 2 * v < Pow256(n)
  }

  lemma MulAtLeast(d: int, k: int)
    requires d > 0
    ensures k >= 1 ==> d * k >= d
    ensures k <= -1 ==> d * k <= -d
  {
    if k >= 1 {
      assert d * k == d + d * (k - 1);
    } else if k <= -1 {
      assert d * k == -d + d * (k + 1);
    }
  }

  /** Euclidean division by a positive divisor has one quotient and one
      remainder. */
  lemma DivModUnique(v: int, d: int, q: int, r: int)
    requires d > 0 && v == d * q + r && 0 <= r < d
    ensures v / d == q && v % d == r
  {
    var q', r' := v / d, v % d;
    assert d * (q - q') == r' - r;
    MulAtLeast(d, q - q');
  }

  /** Splitting a modulus 256 * p into its low byte and the rest. */
  lemma ModSplit(v: int, p: nat)
    requires p > 0
    ensures v % (256 * p) == v % 256 + 256 * ((v / 256) % p)
  {
    var q, r := v / 256, v % 256;
    var q2, r2 := q / p, q % p;
    assert v == 256 * q + r;
    assert q == p * q2 + r2;
    assert v == (256 * p) * q2 + (256 * r2 + r);
    DivModUnique(v, 256 * p, q2, 256 * r2 + r);
  }

  /** Reading back an n-byte little-endian store gives the stored value
      modulo 256^n. */
  lemma {:induction false} LittleEndianRoundTrip(v: int, n: nat)
    ensures FromLittleEndian(LittleEndian(v, n)) == v % Pow256(n)
    decreases n
  {
    if n > 0 {
      var bs := LittleEndian(v, n);
      assert bs[1..] == LittleEndian(v / 256, n - 1);
      LittleEndianRoundTrip(v / 256, n - 1);
      ModSplit(v, Pow256(n - 1));
    }
  }

  /** An n-byte store of a value that fits in n signed bytes reads back, as a
      signed quantity, as that value. */
  lemma LittleEndianSignedRoundTrip(v: int, n: nat)
    requires FitsSigned(v, n)
    ensures Signed(FromLittleEndian(LittleEndian(v, n)), n) == v
  {
    LittleEndianRoundTrip(v, n);
    var p := Pow256(n);
    if v >= 0 {
      DivModUnique(v, p, 0, v);
    } else {
      DivModUnique(v, p, -1, v + p);
    }
  }

  /** Bit k of x (bit 0 is the least significant). */
  function Bit(x: nat, k: nat): bool
  {
    if k == 0 then x % 2 == 1 else Bit(x / 2, k - 1)
  }

  /** Bitwise OR of two unsigned values. */
  function BitOr(a: nat, b: nat): nat
    decreases a + b
  {
    if a == 0 then b
    else if b == 0 then a
    else 2 * BitOr(a / 2, b / 2) + (if a % 2 == 1 || b % 2 == 1 then 1 else 0)
  }

  lemma {:induction false} BitOfZero(k: nat)
    ensures !Bit(0, k)
  {
    if k > 0 {
      BitOfZero(k - 1);
    }
  }

  /** Each bit of `a | b` is set iff it is set in `a` or in `b`. */
  lemma {:induction false} BitOrBit(a: nat, b: nat, k: nat)
    ensures Bit(BitOr(a, b), k) == (Bit(a, k) || Bit(b, k))
    decreases a + b
  {
    if a == 0 {
      BitOfZero(k);
    } else if b == 0 {
      BitOfZero(k);
    } else if k > 0 {
      BitOrBit(a / 2, b / 2, k - 1);
    }
  }

  /** OR never sets a bit at or above position n. */
  lemma {:induction false} BitOrBound(a: nat, b: nat, n: nat)
    requires a < Pow2(n) && b < Pow2(n)
    ensures BitOr(a, b) < Pow2(n)
    decreases a + b
  {
    if a != 0 && b != 0 {
      BitOrBound(a / 2, b / 2, n - 1);
    }
  }

  /** OR is zero exactly when both arguments are. */
  lemma {:induction false} BitOrZero(a: nat, b: nat)
    ensures BitOr(a, b) == 0 <==> a == 0 && b == 0
    decreases a + b
  {
    if a != 0 && b != 0 && a % 2 == 0 && b % 2 == 0 {
      BitOrZero(a / 2, b / 2);
    }
  }

  /** OR of two bytes is a byte; it is zero only when both are, and it stays
      below 16 when both do. */
  function ByteOr(a: byte, b: byte): (c: byte)
    ensures forall k: nat :: Bit(c, k) == (Bit(a, k) || Bit(b, k))
    ensures c == 0 <==> a == 0 && b == 0
    ensures a < 16 && b < 16 ==> c < 16
  {
    assert Pow2(8) == 256;
    assert Pow2(4) == 16;
    BitOrBound(a, b, 8);
    assert a < 16 && b < 16 ==> BitOr(a, b) < 16 by {
      if a < 16 && b < 16 {
        BitOrBound(a, b, 4);
      }
    }
    BitOrZero(a, b);
    forall k: nat ensures Bit(BitOr(a, b), k) == (Bit(a, k) || Bit(b, k)) {
      BitOrBit(a, b, k);
    }
    BitOr(a, b)
  }

  /** `s` with `bs` written over it starting at `pos`. */
  function Write(s: seq<byte>, pos: nat, bs: seq<byte>): (r: seq<byte>)
    requires pos + |bs| <= |s|
    ensures |r| == |s|
    ensures r[pos..pos + |bs|] == bs
    ensures forall k :: 0 <= k < |s| && !(pos <= k < pos + |bs|) ==> r[k] == s[k]
  {
    s[..pos] + bs + s[pos + |bs|..]
  }

  /** Two adjacent writes are one write of their concatenation. */
  lemma WriteThenWrite(s: seq<byte>, pos: nat, a: seq<byte>, b: seq<byte>)
    requires pos + |a| + |b| <= |s|
    ensures Write(Write(s, pos, a), pos + |a|, b) == Write(s, pos, a + b)
  {
    var lhs, rhs := Write(Write(s, pos, a), pos + |a|, b), Write(s, pos, a + b);
    forall k | 0 <= k < |s| ensures lhs[k] == rhs[k] {
      if pos <= k < pos + |a| {
        assert lhs[k] == Write(s, pos, a)[k] == a[k - pos];
        assert rhs[k] == (a + b)[k - pos];
      } else if pos + |a| <= k < pos + |a| + |b| {
        assert lhs[k] == b[k - pos - |a|];
        assert rhs[k] == (a + b)[k - pos];
      }
    }
  }
}
