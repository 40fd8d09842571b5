/**
 * The four point shapes of src/ewkb/point.rs, their body reader (x, y, then
 * z and m as the type id's flags say) and the `EwkbPoint` writer.
 */
module Points {
  import opened Wrappers
  import opened Encoding
  import opened Ewkb
  import opened Containers

  /**
   * `Point`, `PointZ`, `PointM` and `PointZM`. The source has one struct per
   * shape; a generic container's type parameter fixes the shape of all its
   * points, which the model states with `PointTypeOf`.
   */
  datatype Point =
    | Point(x: F64, y: F64, srid: Option<i32>)
    | PointZ(x: F64, y: F64, z: F64, srid: Option<i32>)
    | PointM(x: F64, y: F64, m: F64, srid: Option<i32>)
    | PointZM(x: F64, y: F64, z: F64, m: F64, srid: Option<i32>)
  {
    /** The same coordinates under another SRID. */
    function WithSrid(s: Option<i32>): Point {
      this.(srid := s)
    }
  }

  /** `point_type()` of the point's own struct. */
  function PointTypeOf(p: Point): PointType {
    match p
    case Point(_, _, _) => PointType.Point
    case PointZ(_, _, _, _) => PointType.PointZ
    case PointM(_, _, _, _) => PointType.PointM
    case PointZM(_, _, _, _, _) => PointType.PointZM
  }

  /** `opt_z`: the stored z for the shapes that have one, `None` (the trait default) otherwise. */
  function OptZ(p: Point): (r: Option<F64>)
    ensures r.Some? <==> PointTypeOf(p).WithZ()
    ensures r.Some? ==> r.value == p.z
  {
    match p
    case PointZ(_, _, z, _) => Some(z)
    case PointZM(_, _, z, _, _) => Some(z)
    case _ => None
  }

  /** `opt_m`: the stored m for the shapes that have one, `None` otherwise. */
  function OptM(p: Point): (r: Option<F64>)
    ensures r.Some? <==> PointTypeOf(p).WithM()
    ensures r.Some? ==> r.value == p.m
  {
    match p
    case PointM(_, _, m, _) => Some(m)
    case PointZM(_, _, _, m, _) => Some(m)
    case _ => None
  }

  /**
   * `new_from_opt_vals` of the shape `pointType`: keeps x, y and the SRID,
   * drops the coordinates the shape does not have, and fills a coordinate it
   * has but was not given with 0.0.
   */
  function NewFromOptVals(pointType: PointType, x: F64, y: F64, z: Option<F64>, m: Option<F64>, srid: Option<i32>): (p: Point)
    ensures PointTypeOf(p) == pointType
    ensures p.x == x && p.y == y && p.srid == srid
    ensures OptZ(p) == (if pointType.WithZ() then Some(z.GetOr(ZeroF64)) else None)
    ensures OptM(p) == (if pointType.WithM() then Some(m.GetOr(ZeroF64)) else None)
  {
    match pointType
    case Point => Point.Point(x, y, srid)
    case PointZ => Point.PointZ(x, y, z.GetOr(ZeroF64), srid)
    case PointM => Point.PointM(x, y, m.GetOr(ZeroF64), srid)
    case PointZM => Point.PointZM(x, y, z.GetOr(ZeroF64), m.GetOr(ZeroF64), srid)
  }

  /** A point is rebuilt exactly from its own shape and accessors, under any SRID. */
  lemma NewFromOwnVals(p: Point, srid: Option<i32>)
    ensures NewFromOptVals(PointTypeOf(p), p.x, p.y, OptZ(p), OptM(p), srid) == p.WithSrid(srid)
    ensures p.WithSrid(p.srid) == p
  {
  }

  // --- reading

  /** The number of bytes a point body takes under a type id: x, y, and z and m when flagged. */
  function PointBodySize(typeId: u32): nat {
    16 + (if HasZ(typeId) then 8 else 0) + (if HasM(typeId) then 8 else 0)
  }

  /** `if flag { Some(read_f64(raw, is_be)?) } else { None }` */
  function ReadOptF64(raw: Bytes, isBe: bool, present: bool): (r: Read<Option<F64>>)
    ensures r.Ok? <==> (present ==> |raw| >= 8)
    ensures r.Err? ==> r.error == UnexpectedEof
    ensures r.Ok? ==> (r.value.0.Some? <==> present) && r.value.1 == raw[if present then 8 else 0..]
  {
    if present then
      var (v, rest) :- ReadF64(raw, isBe);
      Ok((Some(v), rest))
    else
      Ok((None, raw))
  }

  /**
   * `read_ewkb_body` of the point shape `pointType`: x, y, then z iff the
   * type id has the Z flag and m iff it has the M flag, handed to
   * `new_from_opt_vals` with the SRID passed in.
   */
  function DecodePointBody(raw: Bytes, isBe: bool, typeId: u32, srid: Option<i32>, pointType: PointType): (r: Read<Point>)
    ensures r.Ok? <==> |raw| >= PointBodySize(typeId)
    ensures r.Err? ==> r.error == UnexpectedEof
    ensures r.Ok? ==>
      && r.value.1 == raw[PointBodySize(typeId)..]
      && PointTypeOf(r.value.0) == pointType && r.value.0.srid == srid
  {
    var (x, r1) :- ReadF64(raw, isBe);
    var (y, r2) :- ReadF64(r1, isBe);
    var (z, r3) :- ReadOptF64(r2, isBe, HasZ(typeId));
    var (m, r4) :- ReadOptF64(r3, isBe, HasM(typeId));
    Ok((NewFromOptVals(pointType, x, y, z, m, srid), r4))
  }

  /**
   * Where `read_ewkb_body` finds each coordinate: x in the first 8 bytes, y
   * in the next 8, then z when the type id has the Z flag, then m when it
   * has the M flag; a coordinate the shape has but the flags do not is 0.0.
   */
  lemma PointBodyLayout(raw: Bytes, isBe: bool, typeId: u32, srid: Option<i32>, pointType: PointType)
    requires |raw| >= PointBodySize(typeId)
    ensures
      var p := DecodePointBody(raw, isBe, typeId, srid, pointType).value.0;
      var mAt := if HasZ(typeId) then 24 else 16;
      && F64Le(p.x) == LittleEndianOrder(raw[..8], isBe)
      && F64Le(p.y) == LittleEndianOrder(raw[8..16], isBe)
      && (pointType.WithZ() && !HasZ(typeId) ==> OptZ(p) == Some(ZeroF64))
      && (pointType.WithZ() && HasZ(typeId) ==> F64Le(OptZ(p).value) == LittleEndianOrder(raw[16..24], isBe))
      && (pointType.WithM() && !HasM(typeId) ==> OptM(p) == Some(ZeroF64))
      && (pointType.WithM() && HasM(typeId) ==> F64Le(OptM(p).value) == LittleEndianOrder(raw[mAt..mAt + 8], isBe))
  {
    var mAt := if HasZ(typeId) then 24 else 16;
    var x := ReadF64(raw, isBe).value.0;
    var y := ReadF64(raw[8..], isBe).value.0;
    assert raw[8..][8..] == raw[16..];
    var z := ReadOptF64(raw[16..], isBe, HasZ(typeId)).value.0;
    assert ReadOptF64(raw[16..], isBe, HasZ(typeId)).value.1 == raw[mAt..];
    var m := ReadOptF64(raw[mAt..], isBe, HasM(typeId)).value.0;
    assert DecodePointBody(raw, isBe, typeId, srid, pointType).value.0 == NewFromOptVals(pointType, x, y, z, m, srid);
    ReadF64At(raw, 0, isBe);
    ReadF64At(raw, 8, isBe);
    if HasZ(typeId) {
      ReadF64At(raw, 16, isBe);
    }
    if HasM(typeId) {
      ReadF64At(raw, mAt, isBe);
    }
  }

  /** The coordinate read at offset `k` takes the eight bytes there. */
  lemma ReadF64At(raw: Bytes, k: nat, isBe: bool)
    requires |raw| >= k + 8
    ensures F64Le(ReadF64(raw[k..], isBe).value.0) == LittleEndianOrder(raw[k..k + 8], isBe)
  {
    ReadF64Takes(raw[k..], isBe);
    assert raw[k..][..8] == raw[k..k + 8];
  }

  /** `read_ewkb` of a point of shape `pointType`: the header, then the body. */
  function DecodePoint(raw: Bytes, pointType: PointType): (r: Read<Point>)
    ensures r.Ok? ==>
      && ReadHeader(raw).Ok?
      && PointTypeOf(r.value.0) == pointType
      && r.value.0.srid == ReadHeader(raw).value.0.srid
      && IsSuffix(r.value.1, raw) && |r.value.1| + 21 <= |raw|
  {
    var h := ReadHeader(raw);
    var r := ReadEwkb(raw, PointBodyDecoder(pointType));
    assert h.Ok? ==> r == DecodePointBody(h.value.1, h.value.0.isBe, h.value.0.typeId, h.value.0.srid, pointType);
    if h.Ok? && r.Ok? then
      SuffixTransitive(r.value.1, h.value.1, raw);
      r
    else
      r
  }

  /** `P::read_ewkb_body` for the point shape `pointType`, as the body reader `read_ewkb` calls. */
  function PointBodyDecoder(pointType: PointType): (Bytes, bool, u32, Option<i32>) -> Read<Point> {
    (raw, isBe, typeId, srid) => DecodePointBody(raw, isBe, typeId, srid, pointType)
  }

  // --- writing

  /** `as_ewkb`: an `EwkbPoint` with the point's own SRID and its own shape. */
  function AsEwkbPoint(p: Point): (e: Ewkb<Point>)
    ensures e.geom == p && e.srid == p.srid && e.pointType == PointTypeOf(p)
  {
    Ewkb(p, p.srid, PointTypeOf(p))
  }

  /** The `EwkbPoint` type id: code 0x01 with the flags of the adapter's shape and SRID. */
  function PointTypeId(e: Ewkb<Point>): (t: u32)
    ensures Kind(t) == 0x01
    ensures HasSrid(t) <==> e.srid.Some?
    ensures HasZ(t) <==> e.pointType.WithZ()
    ensures HasM(t) <==> e.pointType.WithM()
  {
    CodedTypeId(0x01, e.pointType, e.srid)
  }

  /** The `EwkbPoint` body: x, y, then the point's own z and m when it has them, little-endian. */
  function EncodePointBody(p: Point): (out: Bytes)
    ensures |out| == 16 + (if OptZ(p).Some? then 8 else 0) + (if OptM(p).Some? then 8 else 0)
  {
    F64Le(p.x) + F64Le(p.y)
    + (if OptZ(p).Some? then F64Le(OptZ(p).value) else [])
    + (if OptM(p).Some? then F64Le(OptM(p).value) else [])
  }

  /** `EwkbPoint::write_ewkb`. */
  function EncodePoint(e: Ewkb<Point>): Bytes {
    WriteEwkb(PointTypeId(e), e.srid, EncodePointBody(e.geom))
  }

  // --- round trips

  /**
   * A written point body read back under flags that match the point's shape
   * gives its coordinates to `new_from_opt_vals` of the shape being read.
   */
  lemma {:induction false} ReadPointBodyOfWritten(p: Point, typeId: u32, srid: Option<i32>, pointType: PointType, rest: Bytes)
    requires HasZ(typeId) <==> PointTypeOf(p).WithZ()
    requires HasM(typeId) <==> PointTypeOf(p).WithM()
    ensures DecodePointBody(EncodePointBody(p) + rest, false, typeId, srid, pointType)
            == Ok((NewFromOptVals(pointType, p.x, p.y, OptZ(p), OptM(p), srid), rest))
  {
    var zb := if OptZ(p).Some? then F64Le(OptZ(p).value) else [];
    var mb := if OptM(p).Some? then F64Le(OptM(p).value) else [];
    var r3 := mb + rest;
    var r2 := zb + r3;
    var r1 := F64Le(p.y) + r2;
    var raw := F64Le(p.x) + r1;
    assert EncodePointBody(p) + rest == raw;
    ReadF64OfWritten(p.x, r1);
    ReadF64OfWritten(p.y, r2);
    ReadOptF64OfWritten(OptZ(p), r3);
    ReadOptF64OfWritten(OptM(p), rest);
    DecodePointBodyOf(raw, false, typeId, srid, pointType, p.x, r1, p.y, r2, OptZ(p), r3, OptM(p), rest);
  }

  /** Four successful coordinate reads, one after the other, make a point body read. */
  lemma DecodePointBodyOf(raw: Bytes, isBe: bool, typeId: u32, srid: Option<i32>, pointType: PointType,
                          x: F64, r1: Bytes, y: F64, r2: Bytes, z: Option<F64>, r3: Bytes, m: Option<F64>, r4: Bytes)
    requires ReadF64(raw, isBe) == Ok((x, r1))
    requires ReadF64(r1, isBe) == Ok((y, r2))
    requires ReadOptF64(r2, isBe, HasZ(typeId)) == Ok((z, r3))
    requires ReadOptF64(r3, isBe, HasM(typeId)) == Ok((m, r4))
    ensures DecodePointBody(raw, isBe, typeId, srid, pointType) == Ok((NewFromOptVals(pointType, x, y, z, m, srid), r4))
  {
  }

  /** An optional coordinate written when present is read back when flagged. */
  lemma ReadOptF64OfWritten(v: Option<F64>, rest: Bytes)
    ensures ReadOptF64((if v.Some? then F64Le(v.value) else []) + rest, false, v.Some?) == Ok((v, rest))
  {
    if v.Some? {
      ReadF64OfWritten(v.value, rest);
    } else {
      assert [] + rest == rest;
    }
  }

  /**
   * An `EwkbPoint` whose flags match its point, written and read back as any
   * shape: coordinates kept, dropped or zero-filled, and the SRID of the
   * header.
   */
  lemma {:induction false} ReadPointOfWritten(e: Ewkb<Point>, pointType: PointType, rest: Bytes)
    requires e.pointType == PointTypeOf(e.geom)
    ensures DecodePoint(EncodePoint(e) + rest, pointType)
            == Ok((NewFromOptVals(pointType, e.geom.x, e.geom.y, OptZ(e.geom), OptM(e.geom), e.srid), rest))
  {
    var t := PointTypeId(e);
    ReadEwkbOfWritten(t, e.srid, EncodePointBody(e.geom), rest, PointBodyDecoder(pointType));
    ReadPointBodyOfWritten(e.geom, t, e.srid, pointType, rest);
  }

  /** `as_ewkb` then `read_ewkb` as another shape: a Z payload read as `Point` keeps only x, y and the SRID. */
  lemma ReadPointAsShape(p: Point, pointType: PointType, rest: Bytes)
    ensures DecodePoint(EncodePoint(AsEwkbPoint(p)) + rest, pointType)
            == Ok((NewFromOptVals(pointType, p.x, p.y, OptZ(p), OptM(p), p.srid), rest))
    ensures pointType == PointType.Point ==>
            DecodePoint(EncodePoint(AsEwkbPoint(p)) + rest, pointType) == Ok((Point.Point(p.x, p.y, p.srid), rest))
  {
    ReadPointOfWritten(AsEwkbPoint(p), pointType, rest);
  }

  /** `as_ewkb` then `read_ewkb` of the same shape gives the point back exactly. */
  lemma PointRoundTrip(p: Point, rest: Bytes)
    ensures DecodePoint(EncodePoint(AsEwkbPoint(p)) + rest, PointTypeOf(p)) == Ok((p, rest))
  {
    ReadPointOfWritten(AsEwkbPoint(p), PointTypeOf(p), rest);
    NewFromOwnVals(p, p.srid);
  }

  // --- the point readers and writers the containers apply to each item

  /** `P::read_ewkb_body(raw, is_be, type_id, srid)` as a reader of the remaining bytes. */
  function PointBodyReader(isBe: bool, typeId: u32, srid: Option<i32>, pointType: PointType): (dec: Bytes -> Read<Point>)
    ensures Advances(dec, 16)
  {
    raw => DecodePointBody(raw, isBe, typeId, srid, pointType)
  }

  /** `P::read_ewkb(raw)` as a reader of the remaining bytes. */
  function PointReader(pointType: PointType): (dec: Bytes -> Read<Point>)
    ensures Advances(dec, 21)
  {
    raw => DecodePoint(raw, pointType)
  }

  /** `EwkbPoint { geom, srid: None, point_type }.write_ewkb(w)` for each item. */
  function PointWriter(pointType: PointType): Point -> Bytes {
    p => EncodePoint(Ewkb(p, None, pointType))
  }
}
