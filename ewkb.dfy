/**
 * The EWKB header: the byte-order byte, the type id with its PostGIS flag
 * bits, the optional SRID, and the generic `read_ewkb` / `write_ewkb` /
 * `to_hex_ewkb` framing of src/ewkb.rs.
 */
module Ewkb {
  import opened Wrappers
  import opened Encoding

  /** `PointType`: which coordinates beyond x and y a point carries. */
  datatype PointType = Point | PointZ | PointM | PointZM {
    predicate WithZ() { this == PointZ || this == PointZM }
    predicate WithM() { this == PointM || this == PointZM }
  }

  // --- type-id bits

  /** `has_z`: bit 0x80000000 of the type id is set. */
  predicate HasZ(typeId: u32) {
    (typeId as int / 0x8000_0000) % 2 == 1
  }

  /** `has_m`: bit 0x40000000 of the type id is set. */
  predicate HasM(typeId: u32) {
    (typeId as int / 0x4000_0000) % 2 == 1
  }

  /** `type_id & 0x20000000 == 0x20000000`: an SRID follows the type id. */
  predicate HasSrid(typeId: u32) {
    (typeId as int / 0x2000_0000) % 2 == 1
  }

  /** `type_id & 0xff`: the geometry kind (1 Point ... 7 GeometryCollection). */
  function Kind(typeId: u32): u32 {
    typeId % 0x100
  }

  /**
   * `wkb_type_id`: the flag bits for a point shape and an optional SRID.
   * The source ORs each flag into a zero word; the three flags are distinct
   * bits, so the OR of those that apply is their sum.
   */
  function WkbTypeId(pointType: PointType, srid: Option<i32>): (t: u32)
    ensures HasSrid(t) <==> srid.Some?
    ensures HasZ(t) <==> pointType.WithZ()
    ensures HasM(t) <==> pointType.WithM()
    ensures t % 0x2000_0000 == 0
  {
    var s := if srid.Some? then 0x2000_0000 else 0;
    var z := if pointType.WithZ() then 0x8000_0000 else 0;
    var m := if pointType.WithM() then 0x4000_0000 else 0;
    (s + z + m) as u32
  }

  /**
   * `$typecode | wkb_type_id(point_type, srid)`, the `type_id` of every
   * write adapter. The kind code lies in the low byte and the flags in the
   * top three bits (WkbTypeId ensures the low 29 bits are clear), so the OR
   * is a sum, and the readers' bit tests give back each part.
   */
  function CodedTypeId(code: u32, pointType: PointType, srid: Option<i32>): (t: u32)
    requires code < 0x100
    ensures Kind(t) == code
    ensures HasSrid(t) <==> srid.Some?
    ensures HasZ(t) <==> pointType.WithZ()
    ensures HasM(t) <==> pointType.WithM()
  {
    var w := WkbTypeId(pointType, srid);
    FlagsAboveCode(code as int, w as int / 0x2000_0000);
    (code as int + w as int) as u32
  }

  lemma FlagsAboveCode(code: int, k: int)
    requires 0 <= code < 0x100 && 0 <= k < 8
    ensures (code + 0x2000_0000 * k) % 0x100 == code
    ensures (code + 0x2000_0000 * k) / 0x2000_0000 == k
    ensures (code + 0x2000_0000 * k) / 0x4000_0000 == k / 2
    ensures (code + 0x2000_0000 * k) / 0x8000_0000 == k / 4
  {
  }

  // --- read_ewkb

  /** What `read_ewkb` learns before it hands over to a body reader. */
  datatype Header = Header(isBe: bool, typeId: u32, srid: Option<i32>)

  /**
   * The header part of `read_ewkb`: an order byte (0 means big-endian,
   * anything else little-endian), the type id, and a signed SRID exactly
   * when the type id has the SRID bit.
   */
  function ReadHeader(raw: Bytes): (r: Read<Header>)
    ensures |raw| < 5 ==> r == Err(UnexpectedEof)
    ensures |raw| >= 9 ==> r.Ok?
    ensures r.Err? ==> r.error == UnexpectedEof
    ensures r.Ok? ==>
      var (h, rest) := r.value;
      && |raw| >= 5
      && h.isBe == (raw[0] == 0)
      && U32Le(h.typeId) == LittleEndianOrder(raw[1..5], h.isBe)
      && (h.srid.Some? <==> HasSrid(h.typeId))
      && (h.srid.None? ==> rest == raw[5..])
      && (h.srid.Some? ==>
            |raw| >= 9 && I32Le(h.srid.value) == LittleEndianOrder(raw[5..9], h.isBe) && rest == raw[9..])
  {
    if |raw| == 0 then Err(UnexpectedEof)
    else
      // the order byte is read as an `i8`; it is 0 exactly when the byte is 0
      var isBe := raw[0] == 0;
      var (typeId, rest) :- ReadU32(raw[1..], isBe);
      ReadU32Takes(raw[1..], isBe);
      assert raw[1..][..4] == raw[1..5];
      if HasSrid(typeId) then
        var (srid, rest') :- ReadI32(rest, isBe);
        ReadI32Takes(rest, isBe);
        assert rest[..4] == raw[5..9] && rest[4..] == raw[9..];
        Ok((Header(isBe, typeId, Some(srid)), rest'))
      else
        Ok((Header(isBe, typeId, None), rest))
  }

  /**
   * A header reads exactly when the order byte and the type id are there,
   * and the SRID too when the type id's SRID bit asks for one: without that
   * bit, five bytes are a whole header.
   */
  lemma ReadHeaderSucceeds(raw: Bytes)
    ensures ReadHeader(raw).Ok? <==>
      |raw| >= 5 && (HasSrid(ReadU32(raw[1..], raw[0] == 0).value.0) ==> |raw| >= 9)
  {
  }

  /** `EwkbRead::read_ewkb`: the header, then the body reader of the type being read. */
  function ReadEwkb<T>(raw: Bytes, readBody: (Bytes, bool, u32, Option<i32>) -> Read<T>): Read<T> {
    var (h, rest) :- ReadHeader(raw);
    readBody(rest, h.isBe, h.typeId, h.srid)
  }

  // --- write_ewkb

  /**
   * The write adapters (`EwkbPoint`, `EwkbLineString`, ...): the value to
   * write, the SRID for its header and the point shape for its flags.
   */
  datatype Ewkb<G> = Ewkb(geom: G, srid: Option<i32>, pointType: PointType)

  /**
   * `EwkbWrite::write_ewkb`: always little-endian; the order byte 0x01, the
   * type id, the SRID when there is one, then the body.
   */
  function WriteEwkb(typeId: u32, optSrid: Option<i32>, body: Bytes): (out: Bytes)
    ensures |out| == 5 + (if optSrid.Some? then 4 else 0) + |body|
  {
    [0x01] + U32Le(typeId) + (if optSrid.Some? then I32Le(optSrid.value) else []) + body
  }

  /** Where `write_ewkb` puts each header field, and that the body comes last. */
  lemma WriteEwkbLayout(typeId: u32, optSrid: Option<i32>, body: Bytes)
    ensures var out := WriteEwkb(typeId, optSrid, body);
      && out[0] == 0x01 && out[1..5] == U32Le(typeId)
      && (optSrid.Some? ==> out[5..9] == I32Le(optSrid.value))
      && out[|out| - |body|..] == body
  {
  }

  /** Bytes written after a geometry follow its body. */
  lemma WriteEwkbThenMore(typeId: u32, optSrid: Option<i32>, body: Bytes, more: Bytes)
    ensures WriteEwkb(typeId, optSrid, body) + more == WriteEwkb(typeId, optSrid, body + more)
  {
  }

  /** The header `write_ewkb` emits is read back as written, and what follows it is left in place. */
  lemma ReadHeaderOfWritten(typeId: u32, srid: Option<i32>, body: Bytes)
    requires HasSrid(typeId) <==> srid.Some?
    ensures ReadHeader(WriteEwkb(typeId, srid, body)) == Ok((Header(false, typeId, srid), body))
  {
    var out := WriteEwkb(typeId, srid, body);
    var afterType := if srid.Some? then I32Le(srid.value) + body else body;
    assert out[1..] == U32Le(typeId) + afterType;
    ReadU32OfWritten(typeId, afterType);
    if srid.Some? {
      ReadI32OfWritten(srid.value, body);
    }
  }

  /** `read_ewkb` of what `write_ewkb` wrote hands the body reader the written flags and SRID, little-endian, and the body. */
  lemma ReadEwkbOfWritten<T>(typeId: u32, srid: Option<i32>, body: Bytes, rest: Bytes,
                             readBody: (Bytes, bool, u32, Option<i32>) -> Read<T>)
    requires HasSrid(typeId) <==> srid.Some?
    ensures ReadEwkb(WriteEwkb(typeId, srid, body) + rest, readBody) == readBody(body + rest, false, typeId, srid)
  {
    WriteEwkbThenMore(typeId, srid, body, rest);
    ReadHeaderOfWritten(typeId, srid, body + rest);
  }

  // --- to_hex_ewkb

  const HexDigits: string := "0123456789ABCDEF"

  /** `format!("{:02X}", b)`: two uppercase hex digits, high nibble first. */
  function HexByte(b: byte): string {
    [HexDigits[b / 16], HexDigits[b % 16]]
  }

  /** The fold of `to_hex_ewkb`: appends the digits of each byte, in order, to `acc`. */
  function HexFold(acc: string, bytes: Bytes): (s: string)
    ensures |s| == |acc| + 2 * |bytes|
    ensures s[..|acc|] == acc
    ensures forall i :: 0 <= i < |bytes| ==> s[|acc| + 2 * i..|acc| + 2 * i + 2] == HexByte(bytes[i])
    decreases |bytes|
  {
    if |bytes| == 0 then acc
    else
      var s := HexFold(acc + HexByte(bytes[0]), bytes[1..]);
      assert forall i :: 1 <= i < |bytes| ==> bytes[i] == bytes[1..][i - 1];
      s
  }

  /**
   * `to_hex_ewkb` applied to the bytes `write_ewkb` produced: two uppercase
   * hex digits per byte, in order.
   */
  function ToHexEwkb(bytes: Bytes): (s: string)
    ensures |s| == 2 * |bytes|
    ensures forall i :: 0 <= i < |bytes| ==> s[2 * i..2 * i + 2] == HexByte(bytes[i])
    ensures forall i :: 0 <= i < |s| ==> s[i] in HexDigits
  {
    var s := HexFold("", bytes);
    forall i | 0 <= i < |s|
      ensures s[i] in HexDigits
    {
      var k := i / 2;
      assert s[2 * k..2 * k + 2] == HexByte(bytes[k]);
      assert s[i] == HexByte(bytes[k])[i - 2 * k];
    }
    s
  }

  lemma HexDigitsDistinct(j: int, k: int)
    requires 0 <= j < 16 && 0 <= k < 16 && HexDigits[j] == HexDigits[k]
    ensures j == k
  {
  }

  /** Different byte strings have different hex renderings, so the hex text determines the EWKB bytes. */
  lemma {:induction false} ToHexEwkbInjective(a: Bytes, b: Bytes)
    requires ToHexEwkb(a) == ToHexEwkb(b)
    ensures a == b
  {
    var s := ToHexEwkb(a);
    assert |a| == |b|;
    forall i | 0 <= i < |a|
      ensures a[i] == b[i]
    {
      assert s[2 * i..2 * i + 2] == HexByte(a[i]) == HexByte(b[i]);
      assert HexByte(a[i])[0] == HexByte(b[i])[0] && HexByte(a[i])[1] == HexByte(b[i])[1];
      HexDigitsDistinct(a[i] as int / 16, b[i] as int / 16);
      HexDigitsDistinct(a[i] as int % 16, b[i] as int % 16);
    }
  }
}
