# Curve25519 constant set, verified in Dafny

This project models the Curve25519 realization of the `TrCurve` curve
abstraction in `svarog-curve25519/src/curve.rs`. It covers the parts with
exact behaviour:

- the two literal 32-byte big-endian tables: the prime subgroup order
  ℓ = 2^252 + 27742317777372353535851937790883648493 (the `L` of section 5.1
  of RFC 8032) and the field modulus p = 2^255 − 19 (section 4.1 of RFC 7748);
- the accessors `curve_order()` and `field_order()`, which decode those tables
  most-significant byte first with `Integer::from_digits(.., Order::Msf)`.

Two modules:

- `BigEndian` (`big_endian.dfy`) gives digit conversion its standard meaning.
  `uint8` is Rust's `u8`, so every table entry lies in 0..255 by its type.
  `BytesToNatBE` folds `acc * 256 + b` from the most significant byte; it
  stands for `from_digits` with `Order::Msf`. `NatToBytesBE` is the
  fixed-width, zero-padded inverse. `PositionalValue` is an independent
  positional-sum definition of the same value. The module proves the bounds,
  both round trips, injectivity, concatenation, and order by the leading byte.
- `Curve25519` (`curve25519.dfy`) holds the two tables and the two decoded
  orders. Its proofs show that the tables decode to the closed forms, that
  each table is the canonical 32-byte encoding of its number, that both
  numbers fit in 256 bits, and that ℓ < p.

The accessors are zero-argument functions. Every call therefore returns the
same value, which is the only behaviour of the `LazyLock` cache that a caller
can observe. Arbitrary-precision `rug::Integer` values are Dafny `nat`s.

## Model

| member | source | states |
|---|---|---|
| `Curve25519.CurveOrderBytes` | svarog-curve25519/src/curve.rs:18-27 | the subgroup-order table is exactly 32 bytes wide |
| `Curve25519.FieldOrderBytes` | svarog-curve25519/src/curve.rs:29-38 | the field-modulus table is exactly 32 bytes wide |
| `Curve25519.CurveOrder` | svarog-curve25519/src/curve.rs:40-44 | `curve_order()`, the decoded table, is exactly 2^252 + 27742317777372353535851937790883648493 |
| `Curve25519.FieldOrder` | svarog-curve25519/src/curve.rs:46-50 | `field_order()`, the decoded table, is exactly 2^255 − 19 |
| `Curve25519.CurveOrderBytesDecode` | svarog-curve25519/src/curve.rs:20-25 | the literal bytes of `CURVE_ORDER`, read most significant first, are 2^252 + 27742317777372353535851937790883648493 |
| `Curve25519.FieldOrderBytesDecode` | svarog-curve25519/src/curve.rs:31-36 | the literal bytes of `FIELD_ORDER`, read most significant first, are 2^255 − 19 |
| `Curve25519.CurveOrderEncoding` | svarog-curve25519/src/curve.rs:20-26 | re-encoding `curve_order()` in 32 big-endian bytes reproduces `CURVE_ORDER` exactly |
| `Curve25519.FieldOrderEncoding` | svarog-curve25519/src/curve.rs:31-37 | re-encoding `field_order()` in 32 big-endian bytes reproduces `FIELD_ORDER` exactly |
| `Curve25519.OrdersFit256Bits` | svarog-curve25519/src/curve.rs:40-50 | both orders are below 2^256 |
| `Curve25519.CurveOrderBelowFieldOrder` | svarog-curve25519/src/curve.rs:21-32 | ℓ < p, shown from the leading bytes 0x10 < 0x7f of the equal-width tables |
| `BigEndian.BytesToNatBE` | svarog-curve25519/src/curve.rs:42 | most-significant-first decoding of n bytes is below 256^n |
| `BigEndian.NatToBytesBE` | svarog-curve25519/src/curve.rs:20 | the fixed-width encoding has exactly the requested width |
| `BigEndian.DecodeIsPositional` | svarog-curve25519/src/curve.rs:42 | the `acc * 256 + b` fold equals the positional sum Σ s[i]·256^(n−1−i) on every input |
| `BigEndian.DecodeEncode` | svarog-curve25519/src/curve.rs:48 | decoding a w-byte encoding of n gives n mod 256^w |
| `BigEndian.DecodeEncodeFits` | svarog-curve25519/src/curve.rs:48 | a number below 256^w survives encoding then decoding unchanged |
| `BigEndian.EncodeDecode` | svarog-curve25519/src/curve.rs:42 | re-encoding a decoded byte string at its own width gives back the same bytes, leading zeros included |
| `BigEndian.DecodeInjective` | svarog-curve25519/src/curve.rs:42 | two byte strings of equal length decode to the same number if and only if they are equal |
| `BigEndian.DecodeAppend` | svarog-curve25519/src/curve.rs:42 | decoding hi ++ lo is decode(hi)·256^\|lo\| + decode(lo) |
| `BigEndian.LeadingByteBounds` | svarog-curve25519/src/curve.rs:42 | the leading byte b places the value in [b·256^(n−1), (b+1)·256^(n−1)) |
| `BigEndian.LeadingByteOrder` | svarog-curve25519/src/curve.rs:42 | of two equal-width strings, the one with the smaller leading byte decodes to the smaller number |
| `BigEndian.Decode32Below2To256` | svarog-curve25519/src/curve.rs:42 | every 32-byte string decodes to a value below 2^256 |

## Left out

- `generator()` and `identity()` are not modelled. They wrap constructors of `curve25519_dalek::SubgroupPoint`, a foreign point-arithmetic library whose representation and group law are not visible here.
- `zero()` and `one()` are not modelled. They wrap `EdwardsScalar::ZERO` and `ONE` from the same external library.
- The thread-safe one-time initialisation of `LazyLock` is left out. It concerns concurrency, and it has no behaviour beyond returning the decoded value. The accessors are plain constant functions.
- `rug::Integer` is modelled by Dafny's unbounded `nat`, and `from_digits(.., Order::Msf)` by its standard base-256 big-endian meaning. The library itself is not re-implemented.
- The serde derives, the `Curve25519` marker struct and the `TrCurve` trait with its associated `PointT`/`ScalarT` types are left out. They are compile-time wiring with no behaviour. The `curve_abstract` crate that defines the trait is not part of this model.
- The primality of ℓ and p is not proved. It is a mathematical fact outside what the code promises, and it is infeasible to prove here.
