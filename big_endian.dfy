/**
  Unsigned big-endian ("most significant digit first") conversion between
  byte strings and natural numbers, with base-256 digits.

  `BytesToNatBE` is the meaning given to `Integer::from_digits(bytes, Order::Msf)`
  for a slice of `u8`: the bytes are folded from the most significant one,
  `acc * 256 + b`, starting from 0. `NatToBytesBE` is the fixed-width inverse
  used to state that a constant's byte table is its canonical 32-byte encoding.
*/
module BigEndian {

  /** An unsigned 8-bit digit, Rust's `u8`. */
  type uint8 = b: int | 0 <= b < 256

  /** `base` raised to `exp`. */
  function Pow(base: nat, exp: nat): (r: nat)
    ensures base > 0 ==> r > 0
  {
    if exp == 0 then 1 else base * Pow(base, exp - 1)
  }

  lemma {:induction false} PowAdd(base: nat, m: nat, n: nat)
    ensures Pow(base, m + n) == Pow(base, m) * Pow(base, n)
  {
    if n > 0 {
      PowAdd(base, m, n - 1);
      calc {
        Pow(base, m + n);
        base * Pow(base, m + n - 1);
        base * (Pow(base, m) * Pow(base, n - 1));
        Pow(base, m) * (base * Pow(base, n - 1));
        Pow(base, m) * Pow(base, n);
      }
    }
  }

  lemma Pow2Of8()
    ensures Pow(2, 8) == 256
  {
    assert Pow(2, 4) == 16;
    PowAdd(2, 4, 4);
  }

  /** Eight bits make a byte: 256^k == 2^(8k). */
  lemma {:induction false} Pow256IsPow2(k: nat)
    ensures Pow(256, k) == Pow(2, 8 * k)
  {
    if k > 0 {
      Pow256IsPow2(k - 1);
      Pow2Of8();
      PowAdd(2, 8, 8 * (k - 1));
    }
  }

  /**
    Most-significant-first decoding: the value of the bytes read as one
    unsigned base-256 number. Each step takes the value of all bytes but the
    last and appends the last as the new least significant digit. The result
    always fits in |s| bytes.
  */
  function BytesToNatBE(s: seq<uint8>): (r: nat)
    ensures r < Pow(256, |s|)
  {
    if s == [] then 0
    else
      var prefix := BytesToNatBE(s[..|s| - 1]);
      assert prefix * 256 + s[|s| - 1] < Pow(256, |s|) by {
        assert prefix + 1 <= Pow(256, |s| - 1);
        assert (prefix + 1) * 256 <= Pow(256, |s| - 1) * 256;
      }
      prefix * 256 + s[|s| - 1]
  }

  /**
    Reference definition of the same value as a positional sum:
    s[0] * 256^(|s|-1) + s[1] * 256^(|s|-2) + ... + s[|s|-1].
  */
  function PositionalValue(s: seq<uint8>): nat
  {
    if s == [] then 0 else s[0] * Pow(256, |s| - 1) + PositionalValue(s[1..])
  }

  /**
    Fixed-width most-significant-first encoding of `n` in `width` bytes,
    zero-padded on the left. Digits above `width` bytes are dropped, so the
    encoding represents `n` modulo 256^width.
  */
  function NatToBytesBE(n: nat, width: nat): (r: seq<uint8>)
    ensures |r| == width
  {
    if width == 0 then [] else NatToBytesBE(n / 256, width - 1) + [n % 256]
  }

  /** Appending one byte shifts the value by one digit. */
  lemma AppendByte(s: seq<uint8>, b: uint8)
    ensures BytesToNatBE(s + [b]) == BytesToNatBE(s) * 256 + b
  {
    assert (s + [b])[..|s|] == s;
  }

  /** The value of a longer prefix, one byte at a time. */
  lemma PrefixStep(s: seq<uint8>, k: nat)
    requires k < |s|
    ensures BytesToNatBE(s[..k + 1]) == BytesToNatBE(s[..k]) * 256 + s[k]
  {
    assert s[..k + 1] == s[..k] + [s[k]];
    AppendByte(s[..k], s[k]);
  }

  /** The 64-bit limb made of bytes k .. k + 7, most significant first. */
  function Limb(s: seq<uint8>, k: nat): nat
    requires k + 8 <= |s|
  {
    (s[k] as int) * 0x100_0000_0000_0000 + (s[k + 1] as int) * 0x1_0000_0000_0000
    + (s[k + 2] as int) * 0x100_0000_0000 + (s[k + 3] as int) * 0x1_0000_0000
    + (s[k + 4] as int) * 0x100_0000 + (s[k + 5] as int) * 0x1_0000
    + (s[k + 6] as int) * 0x100 + s[k + 7]
  }

  /** The value of a longer prefix, eight bytes (one 64-bit limb) at a time. */
  lemma PrefixLimb(s: seq<uint8>, k: nat)
    requires k + 8 <= |s|
    ensures BytesToNatBE(s[..k + 8]) == BytesToNatBE(s[..k]) * 0x1_0000_0000_0000_0000 + Limb(s, k)
  {
    PrefixStep(s, k);
    PrefixStep(s, k + 1);
    PrefixStep(s, k + 2);
    PrefixStep(s, k + 3);
    PrefixStep(s, k + 4);
    PrefixStep(s, k + 5);
    PrefixStep(s, k + 6);
    PrefixStep(s, k + 7);
  }

  /** A 32-byte string is four 64-bit limbs, most significant first. */
  lemma Decode32ByLimbs(s: seq<uint8>)
    requires |s| == 32
    ensures BytesToNatBE(s)
         == ((Limb(s, 0) * 0x1_0000_0000_0000_0000 + Limb(s, 8)) * 0x1_0000_0000_0000_0000
             + Limb(s, 16)) * 0x1_0000_0000_0000_0000 + Limb(s, 24)
  {
    var x := 0x1_0000_0000_0000_0000;
    var d8 := BytesToNatBE(s[..8]);
    var d16 := BytesToNatBE(s[..16]);
    var d24 := BytesToNatBE(s[..24]);
    assert d8 == Limb(s, 0) by {
      assert s[..0] == [];
      PrefixLimb(s, 0);
    }
    assert d16 == d8 * x + Limb(s, 8) by { PrefixLimb(s, 8); }
    assert d24 == d16 * x + Limb(s, 16) by { PrefixLimb(s, 16); }
    assert BytesToNatBE(s) == d24 * x + Limb(s, 24) by {
      assert s[..32] == s;
      PrefixLimb(s, 24);
    }
  }

  /** Concatenation: the high part is shifted by the width of the low part. */
  lemma {:induction false} DecodeAppend(hi: seq<uint8>, lo: seq<uint8>)
    ensures BytesToNatBE(hi + lo) == BytesToNatBE(hi) * Pow(256, |lo|) + BytesToNatBE(lo)
    decreases |lo|
  {
    if lo == [] {
      assert hi + lo == hi;
    } else {
      var init, last := lo[..|lo| - 1], lo[|lo| - 1];
      assert hi + lo == (hi + init) + [last];
      assert lo == init + [last];
      AppendByte(hi + init, last);
      AppendByte(init, last);
      DecodeAppend(hi, init);
      ShiftDigit(BytesToNatBE(hi), Pow(256, |init|), BytesToNatBE(init), last);
    }
  }

  /** The fold agrees with the positional sum on every input. */
  lemma {:induction false} DecodeIsPositional(s: seq<uint8>)
    ensures BytesToNatBE(s) == PositionalValue(s)
  {
    if s != [] {
      assert s == [s[0]] + s[1..];
      DecodeAppend([s[0]], s[1..]);
      assert BytesToNatBE([s[0]]) == s[0] by { AppendByte([], s[0]); }
      DecodeIsPositional(s[1..]);
    }
  }

  /** Decoding an encoding gives back the number, reduced modulo 256^width. */
  lemma {:induction false} DecodeEncode(n: nat, width: nat)
    ensures BytesToNatBE(NatToBytesBE(n, width)) == n % Pow(256, width)
  {
    if width > 0 {
      var high := NatToBytesBE(n / 256, width - 1);
      assert NatToBytesBE(n, width) == high + [n % 256];
      AppendByte(high, n % 256);
      DecodeEncode(n / 256, width - 1);
      var p := Pow(256, width - 1);
      ModOfDiv(n, p);
    }
  }

  /** Splitting off the lowest digit commutes with reduction modulo 256 * p. */
  lemma ModOfDiv(n: nat, p: nat)
    requires p > 0
    ensures (n / 256 % p) * 256 + n % 256 == n % (256 * p)
  {
    var q, r := n / 256, n % 256;
    var q1, q0 := q / p, q % p;
    assert n == q1 * (256 * p) + (q0 * 256 + r) by {
      assert n == q * 256 + r;
      assert q == q1 * p + q0;
      ShiftDigit(q1, p, q0, r);
    }
    assert q0 * 256 + r < 256 * p by {
      MulMonotone(q0 + 1, p, 256);
    }
    ModUnique(n, 256 * p, q1, q0 * 256 + r);
  }

  // Arithmetic facts, each stated on plain integers so that the solver sees nothing else.

  lemma ShiftDigit(a: int, p: int, b: int, d: int)
    ensures (a * p + b) * 256 + d == a * (256 * p) + (b * 256 + d)
  {
  }

  lemma MulMonotone(a: int, b: int, m: nat)
    requires a <= b
    ensures a * m <= b * m
  {
  }

  lemma ModUnique(n: int, m: int, q: int, r: int)
    requires m > 0 && n == q * m + r && 0 <= r < m
    ensures n % m == r
  {
    var q', r' := n / m, n % m;
    assert (q - q') * m == r' - r;
    if q - q' >= 1 {
      MulMonotone(1, q - q', m);
    } else if q - q' <= -1 {
      MulMonotone(q - q', -1, m);
    }
  }

  /** A number that fits in `width` bytes is recovered exactly. */
  lemma DecodeEncodeFits(n: nat, width: nat)
    requires n < Pow(256, width)
    ensures BytesToNatBE(NatToBytesBE(n, width)) == n
  {
    DecodeEncode(n, width);
  }

  /** Re-encoding a decoded byte string at its own width reproduces it. */
  lemma {:induction false} EncodeDecode(s: seq<uint8>)
    ensures NatToBytesBE(BytesToNatBE(s), |s|) == s
  {
    if s != [] {
      var init, last := s[..|s| - 1], s[|s| - 1];
      var n := BytesToNatBE(s);
      assert n == BytesToNatBE(init) * 256 + last;
      assert n / 256 == BytesToNatBE(init) && n % 256 == last;
      EncodeDecode(init);
      assert s == init + [last];
    }
  }

  /** Decoding is one-to-one on byte strings of equal length. */
  lemma DecodeInjective(s: seq<uint8>, t: seq<uint8>)
    requires |s| == |t|
    ensures BytesToNatBE(s) == BytesToNatBE(t) <==> s == t
  {
    if BytesToNatBE(s) == BytesToNatBE(t) {
      EncodeDecode(s);
      EncodeDecode(t);
    }
  }

  /** The most significant byte places the value within one 256^(|s|-1) block. */
  lemma LeadingByteBounds(s: seq<uint8>)
    requires |s| > 0
    ensures s[0] * Pow(256, |s| - 1) <= BytesToNatBE(s) < (s[0] + 1) * Pow(256, |s| - 1)
  {
    assert s == [s[0]] + s[1..];
    DecodeAppend([s[0]], s[1..]);
    assert BytesToNatBE([s[0]]) == s[0] by { AppendByte([], s[0]); }
  }

  /** Of two byte strings of one width, the one with the smaller leading byte is smaller. */
  lemma LeadingByteOrder(s: seq<uint8>, t: seq<uint8>)
    requires |s| == |t| > 0 && s[0] < t[0]
    ensures BytesToNatBE(s) < BytesToNatBE(t)
  {
    LeadingByteBounds(s);
    LeadingByteBounds(t);
    MulMonotone(s[0] + 1, t[0], Pow(256, |s| - 1));
  }

  /** Every 32-byte string decodes to a value below 2^256. */
  lemma Decode32Below2To256(s: seq<uint8>)
    requires |s| == 32
    ensures BytesToNatBE(s) < Pow(2, 256)
  {
    Pow256IsPow2(32);
  }
}
