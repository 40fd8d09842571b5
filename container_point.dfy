/**
 * The point containers of src/ewkb/container/point.rs: `LineStringT`, whose
 * body holds bare point bodies read with the container's own type id and
 * SRID, and `MultiPointT`, whose body holds complete EWKB points with their
 * own headers.
 */
module PointContainers {
  import opened Wrappers
  import opened Encoding
  import opened Ewkb
  import opened Points
  import opened Containers

  type LineString = Container<Point>
  type MultiPoint = Container<Point>

  /** Each point with the given SRID. */
  function AllWithSrid(ps: seq<Point>, s: Option<i32>): (qs: seq<Point>)
    ensures |qs| == |ps|
    ensures forall i :: 0 <= i < |ps| ==> qs[i] == ps[i].WithSrid(s)
  {
    seq(|ps|, i requires 0 <= i < |ps| => ps[i].WithSrid(s))
  }

  /** A line as it is read back from a header carrying `s`: the line and every point get `s`. */
  function LineWithSrid(l: LineString, s: Option<i32>): LineString {
    Container(AllWithSrid(l.items, s), s)
  }

  /** The values a container's type parameter `P` admits: every point of the shape `pointType`, and fewer than 2^32 of them. */
  predicate PointsConform(ps: seq<Point>, pointType: PointType) {
    |ps| < 0x1_0000_0000 && forall p <- ps :: PointTypeOf(p) == pointType
  }

  // --- reading

  /**
   * `LineStringT::read_ewkb_body`: a count, then that many bare point bodies
   * read with the line's type id and SRID, so every point gets the line's SRID.
   */
  function DecodeLineStringBody(raw: Bytes, isBe: bool, typeId: u32, srid: Option<i32>, pointType: PointType): (r: Read<LineString>)
    ensures r.Ok? ==>
      var (l, rest) := r.value;
      && |raw| >= 4 && |l.items| == ReadU32(raw, isBe).value.0 as nat
      && l.srid == srid
      && (forall p <- l.items :: p.srid == srid && PointTypeOf(p) == pointType)
      && IsSuffix(rest, raw) && |rest| + 4 + 16 * |l.items| <= |raw|
  {
    var (size, rest) :- ReadU32(raw, isBe);
    var dec := PointBodyReader(isBe, typeId, srid, pointType);
    DecodeManyConsumes(rest, size as nat, dec, 16);
    DecodeManyAll(rest, size as nat, dec, (p: Point) => p.srid == srid && PointTypeOf(p) == pointType);
    var (points, rest') :- DecodeMany(rest, size as nat, dec);
    SuffixTransitive(rest', rest, raw);
    Ok((Container(points, srid), rest'))
  }

  /**
   * `MultiPointT::read_ewkb_body`: a count, then that many complete points,
   * each with its own header; the container keeps the SRID passed in.
   */
  function DecodeMultiPointBody(raw: Bytes, isBe: bool, typeId: u32, srid: Option<i32>, pointType: PointType): (r: Read<MultiPoint>)
    ensures r.Ok? ==>
      var (mp, rest) := r.value;
      && |raw| >= 4 && |mp.items| == ReadU32(raw, isBe).value.0 as nat
      && mp.srid == srid
      && (forall p <- mp.items :: PointTypeOf(p) == pointType)
      && IsSuffix(rest, raw) && |rest| + 4 + 21 * |mp.items| <= |raw|
  {
    var (size, rest) :- ReadU32(raw, isBe);
    var dec := PointReader(pointType);
    DecodeManyConsumes(rest, size as nat, dec, 21);
    DecodeManyAll(rest, size as nat, dec, (p: Point) => PointTypeOf(p) == pointType);
    var (points, rest') :- DecodeMany(rest, size as nat, dec);
    SuffixTransitive(rest', rest, raw);
    Ok((Container(points, srid), rest'))
  }

  /** `LineStringT::<P>::read_ewkb`: the header, then the line body under the header's flags and SRID. */
  function DecodeLineString(raw: Bytes, pointType: PointType): (r: Read<LineString>)
    ensures r.Ok? ==>
      && ReadHeader(raw).Ok?
      && r.value.0.srid == ReadHeader(raw).value.0.srid
      && (forall p <- r.value.0.items :: p.srid == r.value.0.srid && PointTypeOf(p) == pointType)
      && IsSuffix(r.value.1, raw) && |r.value.1| + 9 <= |raw|
  {
    var h := ReadHeader(raw);
    var r := ReadEwkb(raw, LineStringBodyDecoder(pointType));
    assert h.Ok? ==> r == DecodeLineStringBody(h.value.1, h.value.0.isBe, h.value.0.typeId, h.value.0.srid, pointType);
    if h.Ok? && r.Ok? then
      SuffixTransitive(r.value.1, h.value.1, raw);
      r
    else
      r
  }

  function LineStringBodyDecoder(pointType: PointType): (Bytes, bool, u32, Option<i32>) -> Read<LineString> {
    (raw, isBe, typeId, srid) => DecodeLineStringBody(raw, isBe, typeId, srid, pointType)
  }

  /** `MultiPointT::<P>::read_ewkb`: the header, then the multipoint body under the header's SRID. */
  function DecodeMultiPoint(raw: Bytes, pointType: PointType): (r: Read<MultiPoint>)
    ensures r.Ok? ==>
      && ReadHeader(raw).Ok?
      && r.value.0.srid == ReadHeader(raw).value.0.srid
      && (forall p <- r.value.0.items :: PointTypeOf(p) == pointType)
      && IsSuffix(r.value.1, raw) && |r.value.1| + 9 <= |raw|
  {
    var h := ReadHeader(raw);
    var r := ReadEwkb(raw, MultiPointBodyDecoder(pointType));
    assert h.Ok? ==> r == DecodeMultiPointBody(h.value.1, h.value.0.isBe, h.value.0.typeId, h.value.0.srid, pointType);
    if h.Ok? && r.Ok? then
      SuffixTransitive(r.value.1, h.value.1, raw);
      r
    else
      r
  }

  function MultiPointBodyDecoder(pointType: PointType): (Bytes, bool, u32, Option<i32>) -> Read<MultiPoint> {
    (raw, isBe, typeId, srid) => DecodeMultiPointBody(raw, isBe, typeId, srid, pointType)
  }

  // --- writing

  /**
   * `as_ewkb` of a line or a multipoint (one macro writes both): the
   * container, its SRID and `P::point_type()`.
   */
  function AsEwkbContainer<T>(c: Container<T>, pointType: PointType): (e: Ewkb<Container<T>>)
    ensures e.geom == c && e.srid == c.srid && e.pointType == pointType
  {
    Ewkb(c, c.srid, pointType)
  }

  /** `EwkbLineString::type_id`: 0x02 with the adapter's flags. */
  function LineStringTypeId(e: Ewkb<LineString>): (t: u32)
    ensures Kind(t) == 0x02
    ensures HasSrid(t) <==> e.srid.Some?
    ensures HasZ(t) <==> e.pointType.WithZ()
    ensures HasM(t) <==> e.pointType.WithM()
  {
    CodedTypeId(0x02, e.pointType, e.srid)
  }

  /** `EwkbMultiPoint::type_id`: 0x04 with the adapter's flags. */
  function MultiPointTypeId(e: Ewkb<MultiPoint>): (t: u32)
    ensures Kind(t) == 0x04
    ensures HasSrid(t) <==> e.srid.Some?
    ensures HasZ(t) <==> e.pointType.WithZ()
    ensures HasM(t) <==> e.pointType.WithM()
  {
    CodedTypeId(0x04, e.pointType, e.srid)
  }

  /**
   * `EwkbLineString::write_ewkb_body`: the count as a `u32`, then each point
   * as an `EwkbPoint` with no SRID written by `write_ewkb_body`, which is the
   * bare point body.
   */
  function EncodeLineStringBody(e: Ewkb<LineString>): Bytes {
    CountLe(|e.geom.items|) + Join(e.geom.items, EncodePointBody)
  }

  /** `EwkbMultiPoint::write_ewkb_body`: the count, then each point as a complete EWKB point with no SRID. */
  function EncodeMultiPointBody(e: Ewkb<MultiPoint>): Bytes {
    CountLe(|e.geom.items|) + Join(e.geom.items, PointWriter(e.pointType))
  }

  function EncodeLineString(e: Ewkb<LineString>): Bytes {
    WriteEwkb(LineStringTypeId(e), e.srid, EncodeLineStringBody(e))
  }

  function EncodeMultiPoint(e: Ewkb<MultiPoint>): Bytes {
    WriteEwkb(MultiPointTypeId(e), e.srid, EncodeMultiPointBody(e))
  }

  // --- round trips

  /** A written line body is read back under the line's flags with every point taking the SRID the reader passes in. */
  lemma {:induction false} ReadLineStringBodyOfWritten(e: Ewkb<LineString>, typeId: u32, srid: Option<i32>, rest: Bytes)
    requires PointsConform(e.geom.items, e.pointType)
    requires HasZ(typeId) <==> e.pointType.WithZ()
    requires HasM(typeId) <==> e.pointType.WithM()
    ensures DecodeLineStringBody(EncodeLineStringBody(e) + rest, false, typeId, srid, e.pointType)
            == Ok((Container(AllWithSrid(e.geom.items, srid), srid), rest))
  {
    var ps := e.geom.items;
    var joined := Join(ps, EncodePointBody) + rest;
    assert EncodeLineStringBody(e) + rest == CountLe(|ps|) + joined;
    ReadCountOfWritten(|ps|, joined);
    var dec := PointBodyReader(false, typeId, srid, e.pointType);
    var qs := AllWithSrid(ps, srid);
    forall i, r | 0 <= i < |ps|
      ensures dec(EncodePointBody(ps[i]) + r) == Ok((qs[i], r))
    {
      ReadPointBodyOfWritten(ps[i], typeId, srid, e.pointType, r);
      NewFromOwnVals(ps[i], srid);
    }
    DecodeManyOfJoin(ps, qs, EncodePointBody, dec, rest);
  }

  /** A line written under any SRID `e.srid` is read back with that SRID on the line and on every point. */
  lemma ReadLineStringOfWritten(e: Ewkb<LineString>, rest: Bytes)
    requires PointsConform(e.geom.items, e.pointType)
    ensures DecodeLineString(EncodeLineString(e) + rest, e.pointType) == Ok((LineWithSrid(e.geom, e.srid), rest))
  {
    var t := LineStringTypeId(e);
    ReadEwkbOfWritten(t, e.srid, EncodeLineStringBody(e), rest, LineStringBodyDecoder(e.pointType));
    ReadLineStringBodyOfWritten(e, t, e.srid, rest);
  }

  /**
   * Writing a line through `as_ewkb` and reading it back as the same point
   * type gives the line with every point carrying the line's SRID.
   */
  lemma LineStringRoundTrip(l: LineString, pointType: PointType, rest: Bytes)
    requires PointsConform(l.items, pointType)
    ensures DecodeLineString(EncodeLineString(AsEwkbContainer(l, pointType)) + rest, pointType)
            == Ok((LineWithSrid(l, l.srid), rest))
  {
    ReadLineStringOfWritten(AsEwkbContainer(l, pointType), rest);
  }

  /** So a line whose points already carry the line's SRID is reproduced exactly. */
  lemma LineStringExactRoundTrip(l: LineString, pointType: PointType, rest: Bytes)
    requires PointsConform(l.items, pointType)
    requires forall p <- l.items :: p.srid == l.srid
    ensures DecodeLineString(EncodeLineString(AsEwkbContainer(l, pointType)) + rest, pointType) == Ok((l, rest))
  {
    LineStringRoundTrip(l, pointType, rest);
    AllWithOwnSrid(l.items, l.srid);
  }

  /** Points that already carry `s` are unchanged by giving them `s`. */
  lemma AllWithOwnSrid(ps: seq<Point>, s: Option<i32>)
    requires forall p <- ps :: p.srid == s
    ensures AllWithSrid(ps, s) == ps
  {
    forall i | 0 <= i < |ps|
      ensures AllWithSrid(ps, s)[i] == ps[i]
    {
      NewFromOwnVals(ps[i], s);
    }
  }

  /** A written multipoint body is read back with its points (the shape's own coordinates) and no SRID on them. */
  lemma {:induction false} ReadMultiPointBodyOfWritten(e: Ewkb<MultiPoint>, typeId: u32, srid: Option<i32>, rest: Bytes)
    requires PointsConform(e.geom.items, e.pointType)
    ensures DecodeMultiPointBody(EncodeMultiPointBody(e) + rest, false, typeId, srid, e.pointType)
            == Ok((Container(AllWithSrid(e.geom.items, None), srid), rest))
  {
    var ps := e.geom.items;
    var enc := PointWriter(e.pointType);
    var joined := Join(ps, enc) + rest;
    assert EncodeMultiPointBody(e) + rest == CountLe(|ps|) + joined;
    ReadCountOfWritten(|ps|, joined);
    var dec := PointReader(e.pointType);
    var qs := AllWithSrid(ps, None);
    forall i, r | 0 <= i < |ps|
      ensures dec(enc(ps[i]) + r) == Ok((qs[i], r))
    {
      ReadPointOfWritten(Ewkb(ps[i], None, e.pointType), e.pointType, r);
      NewFromOwnVals(ps[i], None);
    }
    DecodeManyOfJoin(ps, qs, enc, dec, rest);
  }

  /** A multipoint written under any SRID is read back with that SRID, and each point without one. */
  lemma ReadMultiPointOfWritten(e: Ewkb<MultiPoint>, rest: Bytes)
    requires PointsConform(e.geom.items, e.pointType)
    ensures DecodeMultiPoint(EncodeMultiPoint(e) + rest, e.pointType)
            == Ok((Container(AllWithSrid(e.geom.items, None), e.srid), rest))
  {
    var t := MultiPointTypeId(e);
    ReadEwkbOfWritten(t, e.srid, EncodeMultiPointBody(e), rest, MultiPointBodyDecoder(e.pointType));
    ReadMultiPointBodyOfWritten(e, t, e.srid, rest);
  }

  /**
   * Writing a multipoint through `as_ewkb` and reading it back: the
   * container keeps its SRID, and each point, written with no SRID of its
   * own, comes back without one.
   */
  lemma MultiPointRoundTrip(mp: MultiPoint, pointType: PointType, rest: Bytes)
    requires PointsConform(mp.items, pointType)
    ensures DecodeMultiPoint(EncodeMultiPoint(AsEwkbContainer(mp, pointType)) + rest, pointType)
            == Ok((Container(AllWithSrid(mp.items, None), mp.srid), rest))
  {
    ReadMultiPointOfWritten(AsEwkbContainer(mp, pointType), rest);
  }

  // --- items of the containers built from lines


  /** `LineStringT::<P>::read_ewkb_body(raw, is_be, type_id, srid)` as a reader of the remaining bytes (a polygon's rings). */
  function LineStringBodyReader(isBe: bool, typeId: u32, srid: Option<i32>, pointType: PointType): (dec: Bytes -> Read<LineString>)
    ensures Advances(dec, 4)
  {
    raw => DecodeLineStringBody(raw, isBe, typeId, srid, pointType)
  }

  /** `LineStringT::<P>::read_ewkb(raw)` as a reader of the remaining bytes (a multilinestring's lines). */
  function LineStringReader(pointType: PointType): (dec: Bytes -> Read<LineString>)
    ensures Advances(dec, 9)
  {
    raw => DecodeLineString(raw, pointType)
  }

  /** `EwkbLineString { geom, srid: None, point_type }.write_ewkb_body(w)` for each ring. */
  function LineStringBodyWriter(pointType: PointType): LineString -> Bytes {
    l => EncodeLineStringBody(Ewkb(l, None, pointType))
  }

  /** `EwkbLineString { geom, srid: None, point_type }.write_ewkb(w)` for each line. */
  function LineStringWriter(pointType: PointType): LineString -> Bytes {
    l => EncodeLineString(Ewkb(l, None, pointType))
  }
}
