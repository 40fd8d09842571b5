/**
 * Fixed-width reads of the EWKB stream (src/ewkb/encoding.rs) and the
 * little-endian writes the encoder uses (the `byteorder` calls of the
 * writers).
 *
 * A reader is modelled as the slice of bytes that remain to be read: every
 * read returns the value it took and the rest of the stream after it, so the
 * mutable `&mut R` of the source becomes an explicit before/after pair.
 */
module Encoding {

  newtype byte = x: int | 0 <= x < 0x100
  type Bytes = seq<byte>

  newtype u32 = x: int | 0 <= x < 0x1_0000_0000
  newtype i32 = x: int | -0x8000_0000 <= x < 0x8000_0000

  /** An `f64` coordinate, kept as its 64 raw bits: the codec never computes with floats. */
  newtype F64 = x: int | 0 <= x < 0x1_0000_0000_0000_0000

  /** The bits of the `f64` value 0.0. */
  const ZeroF64: F64 := 0

  /**
   * Why a decode failed. The source folds all of these into `Error::Read`
   * with different messages (and panics for the last one).
   */
  datatype Error =
    | UnexpectedEof                  // a short read, converted from `io::Error`
    | UnsupportedTypeId(typeId: u32) // `type_id & 0xff` outside 1..7
    | GenericBodyUnsupported         // `GeometryT::read_ewkb_body`, which has no body format

  datatype Result<T> = Ok(value: T) | Err(error: Error) {
    predicate IsFailure() { Err? }

    function PropagateFailure<U>(): Result<U>
      requires Err?
    {
      Err(error)
    }

    function Extract(): T
      requires Ok?
    {
      value
    }
  }

  /** The outcome of a read: the value and the bytes that remain after it. */
  type Read<T> = Result<(T, Bytes)>

  /** `rest` is what remains of `raw` after some prefix of it has been consumed. */
  predicate IsSuffix(rest: Bytes, raw: Bytes) {
    |rest| <= |raw| && rest == raw[|raw| - |rest|..]
  }

  lemma SuffixTransitive(a: Bytes, b: Bytes, c: Bytes)
    requires IsSuffix(a, b) && IsSuffix(b, c)
    ensures IsSuffix(a, c)
  {
  }

  function Reverse(b: Bytes): (r: Bytes)
    ensures |r| == |b|
    ensures forall i :: 0 <= i < |b| ==> r[i] == b[|b| - 1 - i]
  {
    seq(|b|, i requires 0 <= i < |b| => b[|b| - 1 - i])
  }

  /** The bytes of a field put in little-endian order: reversed when the stream is big-endian. */
  function LittleEndianOrder(b: Bytes, isBe: bool): Bytes {
    if isBe then Reverse(b) else b
  }

  // --- composing words from bytes

  /** 256 to the power `k`: one more than the largest value `k` bytes hold. */
  function Pow256(k: nat): (p: nat)
    ensures p > 0
  {
    if k == 0 then 1 else 0x100 * Pow256(k - 1)
  }

  /** The value of bytes stored least significant first. */
  function LeValue(b: Bytes): (v: nat)
    ensures v < Pow256(|b|)
  {
    if |b| == 0 then 0 else b[0] as nat + 0x100 * LeValue(b[1..])
  }

  /** The value of bytes stored most significant first. */
  function BeValue(b: Bytes): (v: nat)
    ensures v < Pow256(|b|)
  {
    if |b| == 0 then 0 else 0x100 * BeValue(b[..|b| - 1]) + b[|b| - 1] as nat
  }

  /** The `k` bytes of `v`, least significant first (higher bytes are dropped). */
  function LeBytes(v: nat, k: nat): (b: Bytes)
    ensures |b| == k
  {
    if k == 0 then [] else [(v % 0x100) as byte] + LeBytes(v / 0x100, k - 1)
  }

  // --- little-endian writes (`write_u32::<LittleEndian>` and friends)

  function U32Le(v: u32): Bytes {
    LeBytes(v as nat, 4)
  }

  function F64Le(v: F64): Bytes {
    LeBytes(v as nat, 8)
  }

  /** The two's-complement bit pattern of an `i32` (`i32 as u32`). */
  function I32ToBits(v: i32): u32 {
    (if v < 0 then v as int + 0x1_0000_0000 else v as int) as u32
  }

  /** The `i32` whose two's-complement bit pattern is `w` (`u32 as i32`). */
  function I32FromBits(w: u32): i32 {
    if w < 0x8000_0000 then w as int as i32 else (w as int - 0x1_0000_0000) as i32
  }

  function I32Le(v: i32): Bytes {
    U32Le(I32ToBits(v))
  }

  /**
   * A container's item count as written: `len() as u32`, which keeps the low
   * 32 bits of the length, little-endian.
   */
  function CountLe(n: nat): Bytes {
    U32Le((n % 0x1_0000_0000) as u32)
  }

  // --- the readers of src/ewkb/encoding.rs

  /** The value of a fixed-width field in the stream's byte order. */
  function FieldValue(b: Bytes, isBe: bool): (v: nat)
    ensures v < Pow256(|b|)
  {
    if isBe then BeValue(b) else LeValue(b)
  }

  /** `read_u32`: the next 4 bytes, most significant first when `isBe`, least significant first otherwise. */
  function ReadU32(raw: Bytes, isBe: bool): (r: Read<u32>)
    ensures r.Ok? <==> |raw| >= 4
    ensures r.Err? ==> r.error == UnexpectedEof
    ensures r.Ok? ==> r.value.1 == raw[4..]
  {
    if |raw| < 4 then Err(UnexpectedEof)
    else Ok((FieldValue(raw[..4], isBe) as u32, raw[4..]))
  }

  /** `read_i32`: the same 4 bytes as `read_u32`, read as two's complement. */
  function ReadI32(raw: Bytes, isBe: bool): (r: Read<i32>)
    ensures r.Ok? <==> |raw| >= 4
    ensures r.Err? ==> r.error == UnexpectedEof
    ensures r.Ok? ==> r.value.1 == raw[4..]
  {
    var (w, rest) :- ReadU32(raw, isBe);
    Ok((I32FromBits(w), rest))
  }

  /** `read_f64`: the next 8 bytes in the stream's order, taken as the raw bits of an `f64`. */
  function ReadF64(raw: Bytes, isBe: bool): (r: Read<F64>)
    ensures r.Ok? <==> |raw| >= 8
    ensures r.Err? ==> r.error == UnexpectedEof
    ensures r.Ok? ==> r.value.1 == raw[8..]
  {
    if |raw| < 8 then Err(UnexpectedEof)
    else Ok((FieldValue(raw[..8], isBe) as F64, raw[8..]))
  }

  // --- lemmas

  lemma DivMod256(n: int, lo: int, hi: int)
    requires 0 <= lo < 0x100 && 0 <= hi && n == lo + 0x100 * hi
    ensures n % 0x100 == lo && n / 0x100 == hi
  {
  }

  /** Splitting a value into bytes and composing them again gives the value. */
  lemma {:induction false} LeValueOfBytes(v: nat, k: nat)
    requires v < Pow256(k)
    ensures LeValue(LeBytes(v, k)) == v
  {
    if k > 0 {
      LeValueOfBytes(v / 0x100, k - 1);
      assert LeBytes(v, k)[1..] == LeBytes(v / 0x100, k - 1);
    }
  }

  /** Composing bytes into a value and splitting it again gives the same bytes. */
  lemma {:induction false} LeBytesOfValue(b: Bytes)
    ensures LeBytes(LeValue(b), |b|) == b
  {
    if |b| > 0 {
      LeBytesOfValue(b[1..]);
      DivMod256(LeValue(b), b[0] as int, LeValue(b[1..]));
      assert b == [b[0]] + b[1..];
    }
  }

  /** Most-significant-first bytes have the value of the same bytes reversed, read least significant first. */
  lemma {:induction false} BeValueIsReversedLeValue(b: Bytes)
    ensures BeValue(b) == LeValue(Reverse(b))
  {
    if |b| > 0 {
      var front := b[..|b| - 1];
      BeValueIsReversedLeValue(front);
      assert Reverse(b)[1..] == Reverse(front);
    }
  }

  /** The bytes of a field put in little-endian order: reversed when the stream is big-endian. */
  lemma FieldValueIsLittleEndian(b: Bytes, isBe: bool)
    ensures FieldValue(b, isBe) == LeValue(LittleEndianOrder(b, isBe))
  {
    if isBe {
      BeValueIsReversedLeValue(b);
    }
  }

  /** The word `read_u32` returns is written back, little-endian, as the bytes it took in little-endian order. */
  lemma ReadU32Takes(raw: Bytes, isBe: bool)
    requires |raw| >= 4
    ensures U32Le(ReadU32(raw, isBe).value.0) == LittleEndianOrder(raw[..4], isBe)
  {
    FieldValueIsLittleEndian(raw[..4], isBe);
    LeBytesOfValue(LittleEndianOrder(raw[..4], isBe));
  }

  lemma ReadI32Takes(raw: Bytes, isBe: bool)
    requires |raw| >= 4
    ensures I32Le(ReadI32(raw, isBe).value.0) == LittleEndianOrder(raw[..4], isBe)
  {
    ReadU32Takes(raw, isBe);
    TwosComplementRoundTrip(ReadU32(raw, isBe).value.0, 0);
  }

  lemma ReadF64Takes(raw: Bytes, isBe: bool)
    requires |raw| >= 8
    ensures F64Le(ReadF64(raw, isBe).value.0) == LittleEndianOrder(raw[..8], isBe)
  {
    FieldValueIsLittleEndian(raw[..8], isBe);
    LeBytesOfValue(LittleEndianOrder(raw[..8], isBe));
  }

  /**
   * A big-endian read takes the same bytes as a little-endian read of them
   * reversed; the `f64` case needs eight bytes, the others four.
   */
  lemma BigEndianIsReversedLittleEndian(raw: Bytes)
    requires |raw| >= 4
    ensures ReadU32(raw, true).value.0 == ReadU32(Reverse(raw[..4]), false).value.0
    ensures ReadI32(raw, true).value.0 == ReadI32(Reverse(raw[..4]), false).value.0
    ensures |raw| >= 8 ==> ReadF64(raw, true).value.0 == ReadF64(Reverse(raw[..8]), false).value.0
  {
    BeValueIsReversedLeValue(raw[..4]);
    assert Reverse(raw[..4])[..4] == Reverse(raw[..4]);
    if |raw| >= 8 {
      BeValueIsReversedLeValue(raw[..8]);
      assert Reverse(raw[..8])[..8] == Reverse(raw[..8]);
    }
  }

  /** Four bytes least significant first, written out as a sum. */
  lemma LeValueOfFour(b: Bytes)
    requires |b| == 4
    ensures LeValue(b) == b[0] as int + 0x100 * b[1] as int + 0x1_0000 * b[2] as int + 0x100_0000 * b[3] as int
  {
    assert LeValue(b[3..]) == b[3] as int + 0x100 * LeValue(b[4..]);
    assert LeValue(b[2..]) == b[2] as int + 0x100 * LeValue(b[3..]);
    assert LeValue(b[1..]) == b[1] as int + 0x100 * LeValue(b[2..]);
  }

  /** Four bytes most significant first, written out as a sum. */
  lemma BeValueOfFour(b: Bytes)
    requires |b| == 4
    ensures BeValue(b) == 0x100_0000 * b[0] as int + 0x1_0000 * b[1] as int + 0x100 * b[2] as int + b[3] as int
  {
    assert b[..3][..2] == b[..2] && b[..2][..1] == b[..1] && b[..1][..0] == b[..0] && b[..4] == b;
    assert BeValue(b[..1]) == 0x100 * BeValue(b[..0]) + b[0] as int;
    assert BeValue(b[..2]) == 0x100 * BeValue(b[..1]) + b[1] as int;
    assert BeValue(b[..3]) == 0x100 * BeValue(b[..2]) + b[2] as int;
  }

  /**
   * `read_i32` is two's complement: the unsigned value of the four bytes,
   * less 2^32 when the top bit of the most significant byte (the last one
   * little-endian, the first one big-endian) is set.
   */
  lemma ReadI32IsTwosComplement(raw: Bytes)
    requires |raw| >= 4
    ensures ReadI32(raw, false).value.0 as int == LeValue(raw[..4]) - (if raw[3] >= 0x80 then 0x1_0000_0000 else 0)
    ensures ReadI32(raw, true).value.0 as int == BeValue(raw[..4]) - (if raw[0] >= 0x80 then 0x1_0000_0000 else 0)
  {
    LeValueOfFour(raw[..4]);
    BeValueOfFour(raw[..4]);
  }

  /** The two's-complement conversions are inverse bijections. */
  lemma TwosComplementRoundTrip(w: u32, v: i32)
    ensures I32ToBits(I32FromBits(w)) == w
    ensures I32FromBits(I32ToBits(v)) == v
  {
  }

  /** Each little-endian write is read back exactly, leaving what follows untouched. */
  lemma ReadU32OfWritten(v: u32, rest: Bytes)
    ensures ReadU32(U32Le(v) + rest, false) == Ok((v, rest))
  {
    var s := U32Le(v) + rest;
    assert s[..4] == U32Le(v) && s[4..] == rest;
    LeValueOfBytes(v as nat, 4);
  }

  lemma ReadI32OfWritten(v: i32, rest: Bytes)
    ensures ReadI32(I32Le(v) + rest, false) == Ok((v, rest))
  {
    ReadU32OfWritten(I32ToBits(v), rest);
    TwosComplementRoundTrip(0, v);
  }

  lemma ReadF64OfWritten(v: F64, rest: Bytes)
    ensures ReadF64(F64Le(v) + rest, false) == Ok((v, rest))
  {
    var s := F64Le(v) + rest;
    assert s[..8] == F64Le(v) && s[8..] == rest;
    LeValueOfBytes(v as nat, 8);
  }

  /** A count below 2^32 survives the `as u32` cast and is read back. */
  lemma ReadCountOfWritten(n: nat, rest: Bytes)
    requires n < 0x1_0000_0000
    ensures ReadU32(CountLe(n) + rest, false) == Ok((n as u32, rest))
  {
    ReadU32OfWritten(n as u32, rest);
  }
}
