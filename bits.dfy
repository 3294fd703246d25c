/**
 * Binary strings as the engine handles them: values of fixed width written
 * most significant bit first, the gmp-based XOR of two halves, and the
 * byte/bit conversions that feed the block cipher.
 *
 * A binary string of the source ("0110…") is a `Bits` here, `true` standing
 * for the character '1'.
 */
module Bits {

  type Bits = seq<bool>
  type Byte = x: int | 0 <= x < 256
  type Bytes = seq<Byte>

  function Pow2(n: nat): (r: nat)
    ensures r >= 1
  {
    if n == 0 then 1 else 2 * Pow2(n - 1)
  }

  lemma {:induction false} Pow2Add(a: nat, b: nat)
    ensures Pow2(a + b) == Pow2(a) * Pow2(b)
    decreases a
  {
    if a > 0 {
      Pow2Add(a - 1, b);
      assert Pow2(a + b) == 2 * Pow2(a - 1 + b);
    }
  }

  lemma {:induction false} Pow2Monotone(a: nat, b: nat)
    requires a <= b
    ensures Pow2(a) <= Pow2(b)
    decreases b
  {
    if a < b {
      Pow2Monotone(a, b - 1);
    }
  }

  /** The number a binary string denotes (gmp_init($s, 2)); the empty string denotes 0. */
  function FromBits(s: Bits): nat
  {
    if s == [] then 0 else 2 * FromBits(s[..|s| - 1]) + (if s[|s| - 1] then 1 else 0)
  }

  /** The `w` low-order bits of `n`, most significant first. */
  function ToBits(n: nat, w: nat): (r: Bits)
    ensures |r| == w
  {
    if w == 0 then [] else ToBits(n / 2, w - 1) + [n % 2 == 1]
  }

  lemma FromBitsSnoc(s: Bits, b: bool)
    ensures FromBits(s + [b]) == 2 * FromBits(s) + (if b then 1 else 0)
  {
    assert (s + [b])[..|s|] == s;
  }

  lemma {:induction false} FromBitsBound(s: Bits)
    ensures FromBits(s) < Pow2(|s|)
    decreases |s|
  {
    if s != [] {
      FromBitsBound(s[..|s| - 1]);
    }
  }

  lemma MulAtLeast(d: int, k: int)
    requires d > 0 && k >= 1
    ensures d * k >= d
  {
  }

  /** Euclidean division has one remainder: `n == d * a + r` with `0 <= r < d` fixes `n % d`. */
  lemma ModUnique(n: int, d: int, a: int, r: int)
    requires d > 0 && n == d * a + r && 0 <= r < d
    ensures n / d == a && n % d == r
  {
    var q, m := n / d, n % d;
    assert d * (a - q) == m - r;
    assert d * (q - a) == r - m;
    if a - q >= 1 { MulAtLeast(d, a - q); }
    if q - a >= 1 { MulAtLeast(d, q - a); }
  }

  lemma ModDouble(n: nat, p: nat)
    requires p >= 1
    ensures 2 * ((n / 2) % p) + n % 2 == n % (2 * p)
  {
    var q, b := n / 2, n % 2;
    var a, c := q / p, q % p;
    assert q == p * a + c;
    assert n == (2 * p) * a + (2 * c + b);
    ModUnique(n, 2 * p, a, 2 * c + b);
  }

  /** Reading back the `w` low bits of `n` gives `n` modulo 2^w. */
  lemma {:induction false} FromToBits(n: nat, w: nat)
    ensures FromBits(ToBits(n, w)) == n % Pow2(w)
    decreases w
  {
    if w > 0 {
      FromToBits(n / 2, w - 1);
      FromBitsSnoc(ToBits(n / 2, w - 1), n % 2 == 1);
      ModDouble(n, Pow2(w - 1));
    }
  }

  /** Writing a binary string's value back at its own width gives the string itself. */
  lemma {:induction false} ToFromBits(s: Bits)
    ensures ToBits(FromBits(s), |s|) == s
    decreases |s|
  {
    if s != [] {
      var init, last := s[..|s| - 1], s[|s| - 1];
      ToFromBits(init);
      var v := FromBits(s);
      assert v / 2 == FromBits(init) && (v % 2 == 1) == last;
      assert s == init + [last];
    }
  }

  /** Only the low `w` bits of `n` matter to `ToBits(n, w)`. */
  lemma ToBitsMod(n: nat, w: nat)
    ensures ToBits(n, w) == ToBits(n % Pow2(w), w)
  {
    FromToBits(n, w);
    ToFromBits(ToBits(n, w));
  }

  function Zeros(k: nat): (r: Bits)
    ensures |r| == k && forall i :: 0 <= i < k ==> !r[i]
  {
    seq(k, _ => false)
  }

  lemma {:induction false} LeadingZeros(k: nat, s: Bits)
    ensures FromBits(Zeros(k) + s) == FromBits(s)
    decreases |s|
  {
    if s == [] {
      assert Zeros(k) + s == Zeros(k);
      AllZeros(k);
    } else {
      var init, last := s[..|s| - 1], s[|s| - 1];
      LeadingZeros(k, init);
      assert Zeros(k) + s == (Zeros(k) + init) + [last];
      FromBitsSnoc(Zeros(k) + init, last);
      FromBitsSnoc(init, last);
      assert s == init + [last];
    }
  }

  lemma {:induction false} AllZeros(k: nat)
    ensures FromBits(Zeros(k)) == 0
  {
    if k > 0 {
      AllZeros(k - 1);
      assert Zeros(k) == Zeros(k - 1) + [false];
      FromBitsSnoc(Zeros(k - 1), false);
    }
  }

  /** gmp_strval($n, 2): the binary numeral of `n` without leading zeros ("0" for zero). */
  function NaturalBits(n: nat): Bits
  {
    if n < 2 then [n == 1] else NaturalBits(n / 2) + [n % 2 == 1]
  }

  /** The numeral reads back as `n` and, for a positive `n`, starts with a one. */
  lemma {:induction false} NaturalBitsSpec(n: nat)
    ensures |NaturalBits(n)| >= 1 && FromBits(NaturalBits(n)) == n
    ensures n > 0 ==> NaturalBits(n)[0]
    decreases n
  {
    if n >= 2 {
      NaturalBitsSpec(n / 2);
      FromBitsSnoc(NaturalBits(n / 2), n % 2 == 1);
    }
  }

  /** A numeral without leading zeros is no longer than any width whose range holds its value. */
  lemma {:induction false} NaturalBitsFits(n: nat, w: nat)
    requires w >= 1 && n < Pow2(w)
    ensures |NaturalBits(n)| <= w
    decreases w
  {
    if n >= 2 {
      assert w >= 2;
      NaturalBitsFits(n / 2, w - 1);
    }
  }

  /** str_pad($s, $w, '0', STR_PAD_LEFT). */
  function PadBits(s: Bits, w: nat): Bits
  {
    if |s| >= w then s else Zeros(w - |s|) + s
  }

  /** Padding widens the numeral to `w` and keeps its value. */
  lemma PadBitsSpec(s: Bits, w: nat)
    ensures |PadBits(s, w)| == if |s| >= w then |s| else w
    ensures FromBits(PadBits(s, w)) == FromBits(s)
  {
    if |s| < w {
      LeadingZeros(w - |s|, s);
    }
  }

  /** Bitwise exclusive or of two naturals (gmp_xor). */
  function XorNat(a: nat, b: nat): nat
    decreases a + b
  {
    if a == 0 && b == 0 then 0
    else 2 * XorNat(a / 2, b / 2) + (if a % 2 == b % 2 then 0 else 1)
  }

  lemma {:induction false} XorNatZero(a: nat)
    ensures XorNat(a, 0) == a
    decreases a
  {
    if a > 0 {
      XorNatZero(a / 2);
    }
  }

  /** Exclusive or with the same operand twice gives back the first operand. */
  lemma {:induction false} XorNatInvolution(a: nat, b: nat)
    ensures XorNat(XorNat(a, b), b) == a
    decreases a + b
  {
    if a != 0 || b != 0 {
      XorNatInvolution(a / 2, b / 2);
      var c := XorNat(a, b);
      assert c / 2 == XorNat(a / 2, b / 2);
      if c == 0 && b == 0 {
        XorNatZero(a / 2);
      }
    }
  }

  /** Exclusive or never widens its operands. */
  lemma {:induction false} XorNatBound(a: nat, b: nat, w: nat)
    requires a < Pow2(w) && b < Pow2(w)
    ensures XorNat(a, b) < Pow2(w)
    decreases w
  {
    if w > 0 && (a != 0 || b != 0) {
      XorNatBound(a / 2, b / 2, w - 1);
    }
  }

  /**
   * `_binaryXor`: both halves read as binary numbers, xored, written back as
   * a binary numeral and left-padded with zeros to `side` characters.
   */
  function BinaryXor(side: nat, left: Bits, round: Bits): Bits
  {
    PadBits(NaturalBits(XorNat(FromBits(left), FromBits(round))), side)
  }

  /** For a `side`-bit half and a round output no wider, the result is `side` bits holding the exclusive or of the two values. */
  lemma BinaryXorSpec(side: nat, left: Bits, round: Bits)
    requires side >= 1 && |left| == side && |round| <= side
    ensures |BinaryXor(side, left, round)| == side
    ensures FromBits(BinaryXor(side, left, round)) == XorNat(FromBits(left), FromBits(round))
  {
    var x := XorNat(FromBits(left), FromBits(round));
    FromBitsBound(left);
    FromBitsBound(round);
    Pow2Monotone(|round|, side);
    XorNatBound(FromBits(left), FromBits(round), side);
    NaturalBitsSpec(x);
    NaturalBitsFits(x, side);
    PadBitsSpec(NaturalBits(x), side);
  }

  /** `_binaryXor` undoes itself: xoring the same round output in twice restores the half. */
  lemma BinaryXorInvolution(side: nat, left: Bits, round: Bits)
    requires side >= 1 && |left| == side && |round| <= side
    ensures BinaryXor(side, BinaryXor(side, left, round), round) == left
  {
    var once := BinaryXor(side, left, round);
    BinaryXorSpec(side, left, round);
    var twice := BinaryXor(side, once, round);
    BinaryXorSpec(side, once, round);
    XorNatInvolution(FromBits(left), FromBits(round));
    ToFromBits(twice);
    ToFromBits(left);
  }

  /** substr($s, 0, $w): the first `w` characters, or all of a shorter string. */
  function FirstBits(s: Bits, w: nat): (r: Bits)
    ensures |r| == if |s| <= w then |s| else w
  {
    if |s| <= w then s else s[..w]
  }

  /** substr($s, -$w): the last `w` characters, or all of a shorter string (also when `w` is 0). */
  function LastBits(s: Bits, w: nat): (r: Bits)
    ensures w > 0 ==> |r| == if |s| <= w then |s| else w
    ensures |r| <= |s|
  {
    if w == 0 || |s| <= w then s else s[|s| - w..]
  }

  /** Eight bits per byte, most significant first (raw cipher output as a binary string). */
  function RawToBin(bytes: Bytes): (r: Bits)
    ensures |r| == 8 * |bytes|
  {
    if bytes == [] then [] else RawToBin(bytes[..|bytes| - 1]) + ToBits(bytes[|bytes| - 1], 8)
  }

  /** A binary string as the ASCII bytes of its characters '0' (48) and '1' (49). */
  function AsciiBits(s: Bits): (r: Bytes)
    ensures |r| == |s|
  {
    seq(|s|, i requires 0 <= i < |s| => if s[i] then 49 else 48)
  }
}
