/**
 * The containers of lines and polygons and the generic geometry of
 * src/ewkb/geometry.rs: `PolygonT` (rings read as bare line bodies),
 * `MultiLineStringT` and `MultiPolygonT` (items read as complete EWKB
 * values), `GeometryT`, which dispatches on the type code in the header, and
 * `GeometryCollectionT`, whose elements are themselves generic geometries.
 */
module Geometries {
  import opened Wrappers
  import opened Encoding
  import opened Ewkb
  import opened Points
  import opened Containers
  import opened PointContainers

  type Polygon = Container<LineString>
  type MultiLineString = Container<LineString>
  type MultiPolygon = Container<Polygon>
  type GeometryCollection = Container<Geometry>

  /** `GeometryT<P>`: one variant per geometry kind. */
  datatype Geometry =
    | Pt(point: Point)
    | Line(line: LineString)
    | Poly(polygon: Polygon)
    | MultiPt(multiPoint: MultiPoint)
    | MultiLine(multiLine: MultiLineString)
    | MultiPoly(multiPolygon: MultiPolygon)
    | Collection(collection: GeometryCollection)
  {
    /** The type code each variant is written with and is read back from. */
    function Code(): u32 {
      if Pt? then 0x01
      else if Line? then 0x02
      else if Poly? then 0x03
      else if MultiPt? then 0x04
      else if MultiLine? then 0x05
      else if MultiPoly? then 0x06
      else 0x07
    }

    /** The SRID `as_ewkb` puts in the header. */
    function Srid(): Option<i32> {
      if Pt? then point.srid
      else if Line? then line.srid
      else if Poly? then polygon.srid
      else if MultiPt? then multiPoint.srid
      else if MultiLine? then multiLine.srid
      else if MultiPoly? then multiPolygon.srid
      else collection.srid
    }
  }

  // --- reading the containers of lines

  /**
   * `PolygonT::read_ewkb_body`: a count, then that many bare line bodies
   * read with the polygon's type id and SRID.
   */
  function DecodePolygonBody(raw: Bytes, isBe: bool, typeId: u32, srid: Option<i32>, pointType: PointType): (r: Read<Polygon>)
    ensures r.Ok? ==>
      var (y, rest) := r.value;
      && |raw| >= 4 && |y.items| == ReadU32(raw, isBe).value.0 as nat
      && y.srid == srid
      && (forall l <- y.items :: l.srid == srid && forall p <- l.items :: p.srid == srid && PointTypeOf(p) == pointType)
      && IsSuffix(rest, raw) && |rest| + 4 + 4 * |y.items| <= |raw|
  {
    var (size, rest) :- ReadU32(raw, isBe);
    var dec := LineStringBodyReader(isBe, typeId, srid, pointType);
    DecodeManyConsumes(rest, size as nat, dec, 4);
    DecodeManyAll(rest, size as nat, dec, (l: LineString) => l.srid == srid && forall p <- l.items :: p.srid == srid && PointTypeOf(p) == pointType);
    var (rings, rest') :- DecodeMany(rest, size as nat, dec);
    SuffixTransitive(rest', rest, raw);
    Ok((Container(rings, srid), rest'))
  }

  /** `MultiLineStringT::read_ewkb_body`: a count, then that many complete lines. */
  function DecodeMultiLineStringBody(raw: Bytes, isBe: bool, typeId: u32, srid: Option<i32>, pointType: PointType): (r: Read<MultiLineString>)
    ensures r.Ok? ==>
      var (m, rest) := r.value;
      && |raw| >= 4 && |m.items| == ReadU32(raw, isBe).value.0 as nat
      && m.srid == srid
      && (forall l <- m.items :: forall p <- l.items :: p.srid == l.srid && PointTypeOf(p) == pointType)
      && IsSuffix(rest, raw) && |rest| + 4 + 9 * |m.items| <= |raw|
  {
    var (size, rest) :- ReadU32(raw, isBe);
    var dec := LineStringReader(pointType);
    DecodeManyConsumes(rest, size as nat, dec, 9);
    DecodeManyAll(rest, size as nat, dec, (l: LineString) => forall p <- l.items :: p.srid == l.srid && PointTypeOf(p) == pointType);
    var (lines, rest') :- DecodeMany(rest, size as nat, dec);
    SuffixTransitive(rest', rest, raw);
    Ok((Container(lines, srid), rest'))
  }

  /** `PolygonT::<P>::read_ewkb`. */
  function DecodePolygon(raw: Bytes, pointType: PointType): (r: Read<Polygon>)
    ensures r.Ok? ==>
      && ReadHeader(raw).Ok?
      && r.value.0.srid == ReadHeader(raw).value.0.srid
      && (forall l <- r.value.0.items :: l.srid == r.value.0.srid && forall p <- l.items :: p.srid == r.value.0.srid && PointTypeOf(p) == pointType)
      && IsSuffix(r.value.1, raw) && |r.value.1| + 9 <= |raw|
  {
    var h := ReadHeader(raw);
    var r := ReadEwkb(raw, PolygonBodyDecoder(pointType));
    assert h.Ok? ==> r == DecodePolygonBody(h.value.1, h.value.0.isBe, h.value.0.typeId, h.value.0.srid, pointType);
    if h.Ok? && r.Ok? then
      SuffixTransitive(r.value.1, h.value.1, raw);
      r
    else
      r
  }

  function PolygonBodyDecoder(pointType: PointType): (Bytes, bool, u32, Option<i32>) -> Read<Polygon> {
    (raw, isBe, typeId, srid) => DecodePolygonBody(raw, isBe, typeId, srid, pointType)
  }

  /** `PolygonT::<P>::read_ewkb(raw)` as a reader of the remaining bytes (a multipolygon's polygons). */
  function PolygonReader(pointType: PointType): (dec: Bytes -> Read<Polygon>)
    ensures Advances(dec, 9)
  {
    raw => DecodePolygon(raw, pointType)
  }

  /** `MultiPolygonT::read_ewkb_body`: a count, then that many complete polygons. */
  function DecodeMultiPolygonBody(raw: Bytes, isBe: bool, typeId: u32, srid: Option<i32>, pointType: PointType): (r: Read<MultiPolygon>)
    ensures r.Ok? ==>
      var (m, rest) := r.value;
      && |raw| >= 4 && |m.items| == ReadU32(raw, isBe).value.0 as nat
      && m.srid == srid
      && (forall y <- m.items :: forall l <- y.items :: l.srid == y.srid && forall p <- l.items :: p.srid == y.srid && PointTypeOf(p) == pointType)
      && IsSuffix(rest, raw) && |rest| + 4 + 9 * |m.items| <= |raw|
  {
    var (size, rest) :- ReadU32(raw, isBe);
    var dec := PolygonReader(pointType);
    DecodeManyConsumes(rest, size as nat, dec, 9);
    DecodeManyAll(rest, size as nat, dec, (y: Polygon) => forall l <- y.items :: l.srid == y.srid && forall p <- l.items :: p.srid == y.srid && PointTypeOf(p) == pointType);
    var (polygons, rest') :- DecodeMany(rest, size as nat, dec);
    SuffixTransitive(rest', rest, raw);
    Ok((Container(polygons, srid), rest'))
  }

  /** `MultiLineStringT::<P>::read_ewkb`. */
  function DecodeMultiLineString(raw: Bytes, pointType: PointType): (r: Read<MultiLineString>)
    ensures r.Ok? ==>
      && ReadHeader(raw).Ok?
      && r.value.0.srid == ReadHeader(raw).value.0.srid
      && (forall l <- r.value.0.items :: forall p <- l.items :: p.srid == l.srid && PointTypeOf(p) == pointType)
      && IsSuffix(r.value.1, raw) && |r.value.1| + 9 <= |raw|
  {
    var h := ReadHeader(raw);
    var r := ReadEwkb(raw, MultiLineStringBodyDecoder(pointType));
    assert h.Ok? ==> r == DecodeMultiLineStringBody(h.value.1, h.value.0.isBe, h.value.0.typeId, h.value.0.srid, pointType);
    if h.Ok? && r.Ok? then
      SuffixTransitive(r.value.1, h.value.1, raw);
      r
    else
      r
  }

  function MultiLineStringBodyDecoder(pointType: PointType): (Bytes, bool, u32, Option<i32>) -> Read<MultiLineString> {
    (raw, isBe, typeId, srid) => DecodeMultiLineStringBody(raw, isBe, typeId, srid, pointType)
  }

  /** `MultiPolygonT::<P>::read_ewkb`. */
  function DecodeMultiPolygon(raw: Bytes, pointType: PointType): (r: Read<MultiPolygon>)
    ensures r.Ok? ==>
      && ReadHeader(raw).Ok?
      && r.value.0.srid == ReadHeader(raw).value.0.srid
      && (forall y <- r.value.0.items :: forall l <- y.items :: l.srid == y.srid && forall p <- l.items :: p.srid == y.srid && PointTypeOf(p) == pointType)
      && IsSuffix(r.value.1, raw) && |r.value.1| + 9 <= |raw|
  {
    var h := ReadHeader(raw);
    var r := ReadEwkb(raw, MultiPolygonBodyDecoder(pointType));
    assert h.Ok? ==> r == DecodeMultiPolygonBody(h.value.1, h.value.0.isBe, h.value.0.typeId, h.value.0.srid, pointType);
    if h.Ok? && r.Ok? then
      SuffixTransitive(r.value.1, h.value.1, raw);
      r
    else
      r
  }

  function MultiPolygonBodyDecoder(pointType: PointType): (Bytes, bool, u32, Option<i32>) -> Read<MultiPolygon> {
    (raw, isBe, typeId, srid) => DecodeMultiPolygonBody(raw, isBe, typeId, srid, pointType)
  }

  // --- reading a generic geometry

  /**
   * `GeometryT::<P>::read_ewkb`, and the same steps inlined for each
   * element of a collection: the header, then the body chosen by the low
   * byte of the type id.
   */
  function DecodeGeometry(raw: Bytes, pointType: PointType): (r: Read<Geometry>)
    ensures r.Ok? ==> |r.value.1| + 5 <= |raw|
    decreases |raw|, 2
  {
    var (h, rest) :- ReadHeader(raw);
    DecodeGeometryBody(rest, h.isBe, h.typeId, h.srid, pointType)
  }

  /**
   * The geometry read is of the kind named by the low byte of the header's
   * type id; a type id naming no kind is an error that carries it.
   */
  lemma DecodeGeometryKind(raw: Bytes, pointType: PointType)
    ensures var r := DecodeGeometry(raw, pointType);
      && (r.Ok? ==> ReadHeader(raw).Ok? && r.value.0.Code() == Kind(ReadHeader(raw).value.0.typeId))
      && (ReadHeader(raw).Ok? && !(1 <= Kind(ReadHeader(raw).value.0.typeId) <= 7) ==>
            r == Err(UnsupportedTypeId(ReadHeader(raw).value.0.typeId)))
  {
  }

  /**
   * Every point of `g`, at any depth, has the shape `pointType`: what the
   * type `GeometryT<P>` guarantees when `P` has that shape.
   */
  predicate Shaped(g: Geometry, pointType: PointType)
    decreases g
  {
    match g
    case Pt(p) => PointTypeOf(p) == pointType
    case Line(l) => forall p <- l.items :: PointTypeOf(p) == pointType
    case Poly(y) => forall l <- y.items :: forall p <- l.items :: PointTypeOf(p) == pointType
    case MultiPt(m) => forall p <- m.items :: PointTypeOf(p) == pointType
    case MultiLine(m) => forall l <- m.items :: forall p <- l.items :: PointTypeOf(p) == pointType
    case MultiPoly(m) => forall y <- m.items :: forall l <- y.items :: forall p <- l.items :: PointTypeOf(p) == pointType
    case Collection(c) => forall x <- c.items :: Shaped(x, pointType)
  }

  /** Every geometry of `gs` has the shape `pointType`. */
  predicate AllShaped(gs: seq<Geometry>, pointType: PointType) {
    forall x <- gs :: Shaped(x, pointType)
  }

  /**
   * Whatever `GeometryT::<P>::read_ewkb` reads, from any input: every point
   * has the reader's shape, and the geometry carries the header's SRID,
   * except a collection, which has none.
   */
  lemma {:induction false} DecodeGeometryShape(raw: Bytes, pointType: PointType)
    ensures var r := DecodeGeometry(raw, pointType);
      r.Ok? ==>
        && ReadHeader(raw).Ok?
        && Shaped(r.value.0, pointType)
        && r.value.0.Srid() == (if Kind(ReadHeader(raw).value.0.typeId) == 0x07 then None else ReadHeader(raw).value.0.srid)
    decreases |raw|, 2
  {
    var h := ReadHeader(raw);
    if h.Ok? {
      var (hd, rest) := h.value;
      DecodeGeometryBodyShape(rest, hd.isBe, hd.typeId, hd.srid, pointType);
    }
  }

  /** The body chosen by the kind code has the reader's shape and the SRID passed in, or none for a collection. */
  lemma {:induction false} DecodeGeometryBodyShape(raw: Bytes, isBe: bool, typeId: u32, srid: Option<i32>, pointType: PointType)
    ensures var r := DecodeGeometryBody(raw, isBe, typeId, srid, pointType);
      r.Ok? ==> Shaped(r.value.0, pointType) && r.value.0.Srid() == (if Kind(typeId) == 0x07 then None else srid)
    decreases |raw|, 1
  {
    var k := Kind(typeId);
    if k == 0x01 || k == 0x02 || k == 0x04 {
      PointKindsShape(raw, isBe, typeId, srid, pointType);
    } else if k == 0x03 || k == 0x05 || k == 0x06 {
      LineKindsShape(raw, isBe, typeId, srid, pointType);
    } else if k == 0x07 {
      var r := DecodeGeometryBody(raw, isBe, typeId, srid, pointType);
      var b := DecodeCollectionBody(raw, isBe, typeId, srid, pointType);
      assert r.Ok? ==> b.Ok? && r.value.0 == Collection(b.value.0);
      DecodeCollectionShape(raw, isBe, typeId, srid, pointType);
    }
  }

  /** The point, line and multipoint bodies: points of the reader's shape, the SRID passed in. */
  lemma PointKindsShape(raw: Bytes, isBe: bool, typeId: u32, srid: Option<i32>, pointType: PointType)
    requires Kind(typeId) == 0x01 || Kind(typeId) == 0x02 || Kind(typeId) == 0x04
    ensures var r := DecodeGeometryBody(raw, isBe, typeId, srid, pointType);
      r.Ok? ==> Shaped(r.value.0, pointType) && r.value.0.Srid() == srid
  {
    var r := DecodeGeometryBody(raw, isBe, typeId, srid, pointType);
    if Kind(typeId) == 0x01 {
      var b := DecodePointBody(raw, isBe, typeId, srid, pointType);
      assert r.Ok? ==> b.Ok? && r.value.0 == Pt(b.value.0);
    } else if Kind(typeId) == 0x02 {
      var b := DecodeLineStringBody(raw, isBe, typeId, srid, pointType);
      assert r.Ok? ==> b.Ok? && r.value.0 == Line(b.value.0);
    } else {
      var b := DecodeMultiPointBody(raw, isBe, typeId, srid, pointType);
      assert r.Ok? ==> b.Ok? && r.value.0 == MultiPt(b.value.0);
    }
  }

  /** The polygon, multiline and multipolygon bodies: points of the reader's shape, the SRID passed in. */
  lemma LineKindsShape(raw: Bytes, isBe: bool, typeId: u32, srid: Option<i32>, pointType: PointType)
    requires Kind(typeId) == 0x03 || Kind(typeId) == 0x05 || Kind(typeId) == 0x06
    ensures var r := DecodeGeometryBody(raw, isBe, typeId, srid, pointType);
      r.Ok? ==> Shaped(r.value.0, pointType) && r.value.0.Srid() == srid
  {
    var r := DecodeGeometryBody(raw, isBe, typeId, srid, pointType);
    if Kind(typeId) == 0x03 {
      var b := DecodePolygonBody(raw, isBe, typeId, srid, pointType);
      assert r.Ok? ==> b.Ok? && r.value.0 == Poly(b.value.0);
    } else if Kind(typeId) == 0x05 {
      var b := DecodeMultiLineStringBody(raw, isBe, typeId, srid, pointType);
      assert r.Ok? ==> b.Ok? && r.value.0 == MultiLine(b.value.0);
    } else {
      var b := DecodeMultiPolygonBody(raw, isBe, typeId, srid, pointType);
      assert r.Ok? ==> b.Ok? && r.value.0 == MultiPoly(b.value.0);
    }
  }

  /** A collection's elements all have the reader's shape. */
  lemma {:induction false} DecodeCollectionShape(raw: Bytes, isBe: bool, typeId: u32, srid: Option<i32>, pointType: PointType)
    ensures var r := DecodeCollectionBody(raw, isBe, typeId, srid, pointType);
      r.Ok? ==> AllShaped(r.value.0.items, pointType)
    decreases |raw|, 0
  {
    if |raw| >= 4 {
      var (size, rest) := ReadU32(raw, isBe).value;
      DecodeGeometriesShape(rest, size as nat, pointType);
    }
  }

  /** Every geometry the element loop reads has the reader's shape. */
  lemma {:induction false} DecodeGeometriesShape(raw: Bytes, n: nat, pointType: PointType)
    ensures var r := DecodeGeometries(raw, n, pointType);
      r.Ok? ==> AllShaped(r.value.0, pointType)
    decreases |raw|, 3, n
  {
    if n > 0 {
      var first := DecodeGeometry(raw, pointType);
      if first.Ok? {
        var (g, rest) := first.value;
        var others := DecodeGeometries(rest, n - 1, pointType);
        assert Shaped(g, pointType) by {
          DecodeGeometryShape(raw, pointType);
        }
        assert others.Ok? ==> AllShaped(others.value.0, pointType) by {
          DecodeGeometriesShape(rest, n - 1, pointType);
        }
        PrependShaped(g, others, pointType);
      }
      DecodeGeometriesStep(raw, n, pointType);
    }
  }

  lemma PrependShaped(g: Geometry, others: Read<seq<Geometry>>, pointType: PointType)
    requires Shaped(g, pointType)
    requires others.Ok? ==> AllShaped(others.value.0, pointType)
    ensures var r := Prepend([g], others); r.Ok? ==> AllShaped(r.value.0, pointType)
  {
  }

  /** The `match type_id & 0xff` of `GeometryT::<P>::read_ewkb`; any other code is an error naming the type id. */
  function DecodeGeometryBody(raw: Bytes, isBe: bool, typeId: u32, srid: Option<i32>, pointType: PointType): (r: Read<Geometry>)
    ensures r.Ok? ==> r.value.0.Code() == Kind(typeId) && |r.value.1| <= |raw|
    ensures !(1 <= Kind(typeId) <= 7) ==> r == Err(UnsupportedTypeId(typeId))
    decreases |raw|, 1
  {
    match Kind(typeId)
    case 0x01 =>
      var (p, rest) :- DecodePointBody(raw, isBe, typeId, srid, pointType);
      Ok((Pt(p), rest))
    case 0x02 =>
      var (l, rest) :- DecodeLineStringBody(raw, isBe, typeId, srid, pointType);
      Ok((Line(l), rest))
    case 0x03 =>
      var (y, rest) :- DecodePolygonBody(raw, isBe, typeId, srid, pointType);
      Ok((Poly(y), rest))
    case 0x04 =>
      var (m, rest) :- DecodeMultiPointBody(raw, isBe, typeId, srid, pointType);
      Ok((MultiPt(m), rest))
    case 0x05 =>
      var (m, rest) :- DecodeMultiLineStringBody(raw, isBe, typeId, srid, pointType);
      Ok((MultiLine(m), rest))
    case 0x06 =>
      var (m, rest) :- DecodeMultiPolygonBody(raw, isBe, typeId, srid, pointType);
      Ok((MultiPoly(m), rest))
    case 0x07 =>
      var (c, rest) :- DecodeCollectionBody(raw, isBe, typeId, srid, pointType);
      Ok((Collection(c), rest))
    case _ => Err(UnsupportedTypeId(typeId))
  }

  /**
   * `GeometryCollectionT::read_ewkb_body`: a count, then that many complete
   * geometries. The type id and SRID passed in are ignored: the collection
   * starts from `new()` and so always has no SRID.
   */
  function DecodeCollectionBody(raw: Bytes, isBe: bool, typeId: u32, srid: Option<i32>, pointType: PointType): (r: Read<GeometryCollection>)
    ensures r.Ok? ==>
      var (c, rest) := r.value;
      && |raw| >= 4 && |c.items| == ReadU32(raw, isBe).value.0 as nat
      && c.srid == None
      && |rest| + 4 <= |raw|
    decreases |raw|, 0
  {
    var (size, rest) :- ReadU32(raw, isBe);
    var (geometries, rest') :- DecodeGeometries(rest, size as nat, pointType);
    Ok((Container(geometries, None), rest'))
  }

  /** The collection's element loop: `n` geometries one after another, the first failure aborting. */
  function DecodeGeometries(raw: Bytes, n: nat, pointType: PointType): (r: Read<seq<Geometry>>)
    ensures r.Ok? ==> |r.value.0| == n && |r.value.1| <= |raw|
    decreases |raw|, 3, n
  {
    if n == 0 then Ok(([], raw))
    else
      var (g, rest) :- DecodeGeometry(raw, pointType);
      var (gs, rest') :- DecodeGeometries(rest, n - 1, pointType);
      Ok(([g] + gs, rest'))
  }

  /** One step of the element loop: the first geometry, then the rest of the loop from where it ended. */
  lemma DecodeGeometriesStep(raw: Bytes, n: nat, pointType: PointType)
    requires n > 0
    ensures DecodeGeometry(raw, pointType).Err? ==>
      DecodeGeometries(raw, n, pointType) == Err(DecodeGeometry(raw, pointType).error)
    ensures DecodeGeometry(raw, pointType).Ok? ==>
      DecodeGeometries(raw, n, pointType)
      == Prepend([DecodeGeometry(raw, pointType).value.0], DecodeGeometries(DecodeGeometry(raw, pointType).value.1, n - 1, pointType))
  {
  }

  /** `GeometryT::<P>::read_ewkb(raw)` as a reader of the remaining bytes. */
  function GeometryReader(pointType: PointType): Bytes -> Read<Geometry> {
    raw => DecodeGeometry(raw, pointType)
  }

  /** The element loop as a function of the input and the count. */
  ghost function GeometriesOf(pointType: PointType): (Bytes, nat) -> Read<seq<Geometry>> {
    (raw: Bytes, n: nat) => DecodeGeometries(raw, n, pointType)
  }

  /** The element loop is the read loop over `GeometryReader`. */
  lemma GeometriesOfUnrolls(pointType: PointType)
    ensures Unrolls(GeometriesOf(pointType), GeometryReader(pointType))
  {
    var spec := GeometriesOf(pointType);
    var dec := GeometryReader(pointType);
    forall raw, n: nat | n > 0
      ensures spec(raw, n) == (if dec(raw).Err? then Err(dec(raw).error)
                               else Prepend([dec(raw).value.0], spec(dec(raw).value.1, n - 1)))
    {
      GeometriesOfStep(raw, n, pointType);
    }
  }

  /** `DecodeGeometriesStep` through the function values the read loop is given. */
  lemma GeometriesOfStep(raw: Bytes, n: nat, pointType: PointType)
    requires n > 0
    ensures var spec := GeometriesOf(pointType);
      var dec := GeometryReader(pointType);
      spec(raw, n) == (if dec(raw).Err? then Err(dec(raw).error)
                       else Prepend([dec(raw).value.0], spec(dec(raw).value.1, n - 1)))
  {
    var spec := GeometriesOf(pointType);
    var first := DecodeGeometry(raw, pointType);
    assert GeometryReader(pointType)(raw) == first;
    assert spec(raw, n) == DecodeGeometries(raw, n, pointType);
    if first.Ok? {
      assert spec(first.value.1, n - 1) == DecodeGeometries(first.value.1, n - 1, pointType);
    }
    DecodeGeometriesStep(raw, n, pointType);
  }

  /** The element loop as the method that runs it. */
  method ReadGeometries(raw: Bytes, n: nat, pointType: PointType) returns (r: Read<seq<Geometry>>)
    ensures r == DecodeGeometries(raw, n, pointType)
  {
    GeometriesOfUnrolls(pointType);
    r := ReadLoop(raw, n, GeometryReader(pointType), GeometriesOf(pointType));
  }

  /** `GeometryCollectionT::read_ewkb_body` as the method that runs it. */
  method ReadCollectionBody(raw: Bytes, isBe: bool, typeId: u32, srid: Option<i32>, pointType: PointType) returns (r: Read<GeometryCollection>)
    ensures r == DecodeCollectionBody(raw, isBe, typeId, srid, pointType)
  {
    var count := ReadU32(raw, isBe);
    if count.Err? {
      return Err(count.error);
    }
    var (size, rest) := count.value;
    var items := ReadGeometries(rest, size as nat, pointType);
    if items.Err? {
      return Err(items.error);
    }
    var (geometries, rest') := items.value;
    return Ok((Container(geometries, None), rest'));
  }

  /**
   * `GeometryT::read_ewkb_body`, which the source leaves as a panic because
   * only the header-first `read_ewkb` is meant to be used; modelled as an
   * error.
   */
  function GeometryBodyUnsupported(raw: Bytes, isBe: bool, typeId: u32, srid: Option<i32>): (r: Read<Geometry>)
    ensures r == Err(GenericBodyUnsupported)
  {
    Err(GenericBodyUnsupported)
  }

  // --- writing the containers of lines

  function PolygonTypeId(e: Ewkb<Polygon>): (t: u32)
    ensures Kind(t) == 0x03
    ensures HasSrid(t) <==> e.srid.Some?
    ensures HasZ(t) <==> e.pointType.WithZ()
    ensures HasM(t) <==> e.pointType.WithM()
  {
    CodedTypeId(0x03, e.pointType, e.srid)
  }

  function MultiLineStringTypeId(e: Ewkb<MultiLineString>): (t: u32)
    ensures Kind(t) == 0x05
    ensures HasSrid(t) <==> e.srid.Some?
    ensures HasZ(t) <==> e.pointType.WithZ()
    ensures HasM(t) <==> e.pointType.WithM()
  {
    CodedTypeId(0x05, e.pointType, e.srid)
  }

  function MultiPolygonTypeId(e: Ewkb<MultiPolygon>): (t: u32)
    ensures Kind(t) == 0x06
    ensures HasSrid(t) <==> e.srid.Some?
    ensures HasZ(t) <==> e.pointType.WithZ()
    ensures HasM(t) <==> e.pointType.WithM()
  {
    CodedTypeId(0x06, e.pointType, e.srid)
  }

  function CollectionTypeId(e: Ewkb<GeometryCollection>): (t: u32)
    ensures Kind(t) == 0x07
    ensures HasSrid(t) <==> e.srid.Some?
    ensures HasZ(t) <==> e.pointType.WithZ()
    ensures HasM(t) <==> e.pointType.WithM()
  {
    CodedTypeId(0x07, e.pointType, e.srid)
  }

  /** `EwkbPolygon::write_ewkb_body`: the count, then each ring as a bare line body. */
  function EncodePolygonBody(e: Ewkb<Polygon>): Bytes {
    CountLe(|e.geom.items|) + Join(e.geom.items, LineStringBodyWriter(e.pointType))
  }

  function EncodePolygon(e: Ewkb<Polygon>): Bytes {
    WriteEwkb(PolygonTypeId(e), e.srid, EncodePolygonBody(e))
  }

  /** `EwkbPolygon { geom, srid: None, point_type }.write_ewkb(w)` for each polygon. */
  function PolygonWriter(pointType: PointType): Polygon -> Bytes {
    y => EncodePolygon(Ewkb(y, None, pointType))
  }

  /** `EwkbMultiLineString::write_ewkb_body`: the count, then each line as a complete EWKB line with no SRID. */
  function EncodeMultiLineStringBody(e: Ewkb<MultiLineString>): Bytes {
    CountLe(|e.geom.items|) + Join(e.geom.items, LineStringWriter(e.pointType))
  }

  function EncodeMultiLineString(e: Ewkb<MultiLineString>): Bytes {
    WriteEwkb(MultiLineStringTypeId(e), e.srid, EncodeMultiLineStringBody(e))
  }

  /** `EwkbMultiPolygon::write_ewkb_body`: the count, then each polygon as a complete EWKB polygon with no SRID. */
  function EncodeMultiPolygonBody(e: Ewkb<MultiPolygon>): Bytes {
    CountLe(|e.geom.items|) + Join(e.geom.items, PolygonWriter(e.pointType))
  }

  function EncodeMultiPolygon(e: Ewkb<MultiPolygon>): Bytes {
    WriteEwkb(MultiPolygonTypeId(e), e.srid, EncodeMultiPolygonBody(e))
  }

  // --- writing a collection

  function EncodeCollection(e: Ewkb<GeometryCollection>): Bytes
    decreases e.geom, 1
  {
    WriteEwkb(CollectionTypeId(e), e.srid, EncodeCollectionBody(e))
  }

  /**
   * `EwkbGeometryCollection::write_ewkb_body`: the count, then each element
   * through the adapter of its kind with no SRID and the collection's point
   * type, written with `write_ewkb`.
   */
  function EncodeCollectionBody(e: Ewkb<GeometryCollection>): Bytes
    decreases e.geom, 0
  {
    CountLe(|e.geom.items|) + EncodeElements(e.geom.items, e.pointType)
  }

  function EncodeElements(gs: seq<Geometry>, pointType: PointType): Bytes
    decreases gs
  {
    if |gs| == 0 then [] else EncodeWith(gs[0], None, pointType) + EncodeElements(gs[1..], pointType)
  }

  /** `write_ewkb` of the adapter of `g`'s kind, with header SRID `s` and point type `pointType`. */
  function EncodeWith(g: Geometry, s: Option<i32>, pointType: PointType): Bytes
    decreases g
  {
    match g
    case Pt(p) => EncodePoint(Ewkb(p, s, pointType))
    case Line(l) => EncodeLineString(Ewkb(l, s, pointType))
    case Poly(y) => EncodePolygon(Ewkb(y, s, pointType))
    case MultiPt(m) => EncodeMultiPoint(Ewkb(m, s, pointType))
    case MultiLine(m) => EncodeMultiLineString(Ewkb(m, s, pointType))
    case MultiPoly(m) => EncodeMultiPolygon(Ewkb(m, s, pointType))
    case Collection(c) => EncodeCollection(Ewkb(c, s, pointType))
  }

  function ElementWriter(pointType: PointType): Geometry -> Bytes {
    g => EncodeWith(g, None, pointType)
  }

  lemma {:induction false} EncodeElementsIsJoin(gs: seq<Geometry>, pointType: PointType)
    ensures EncodeElements(gs, pointType) == Join(gs, ElementWriter(pointType))
  {
    if |gs| > 0 {
      EncodeElementsIsJoin(gs[1..], pointType);
    }
  }

  /** The element loop of the collection writer as the method that runs it. */
  method WriteCollectionBody(e: Ewkb<GeometryCollection>) returns (out: Bytes)
    ensures out == EncodeCollectionBody(e)
  {
    var elements := WriteAll(e.geom.items, ElementWriter(e.pointType));
    EncodeElementsIsJoin(e.geom.items, e.pointType);
    out := CountLe(|e.geom.items|) + elements;
  }

  // --- the generic write adapter

  /** `EwkbGeometry`: the write adapter of each kind. */
  datatype EwkbGeometry =
    | PtEwkb(point: Ewkb<Point>)
    | LineEwkb(line: Ewkb<LineString>)
    | PolyEwkb(polygon: Ewkb<Polygon>)
    | MultiPtEwkb(multiPoint: Ewkb<MultiPoint>)
    | MultiLineEwkb(multiLine: Ewkb<MultiLineString>)
    | MultiPolyEwkb(multiPolygon: Ewkb<MultiPolygon>)
    | CollectionEwkb(collection: Ewkb<GeometryCollection>)
  {
    /** `opt_srid`, delegated. */
    function OptSrid(): Option<i32> {
      match this
      case PtEwkb(e) => e.srid
      case LineEwkb(e) => e.srid
      case PolyEwkb(e) => e.srid
      case MultiPtEwkb(e) => e.srid
      case MultiLineEwkb(e) => e.srid
      case MultiPolyEwkb(e) => e.srid
      case CollectionEwkb(e) => e.srid
    }

    /** `type_id`, delegated. */
    function TypeId(): (t: u32)
      ensures HasSrid(t) <==> OptSrid().Some?
    {
      match this
      case PtEwkb(e) => PointTypeId(e)
      case LineEwkb(e) => LineStringTypeId(e)
      case PolyEwkb(e) => PolygonTypeId(e)
      case MultiPtEwkb(e) => MultiPointTypeId(e)
      case MultiLineEwkb(e) => MultiLineStringTypeId(e)
      case MultiPolyEwkb(e) => MultiPolygonTypeId(e)
      case CollectionEwkb(e) => CollectionTypeId(e)
    }

    /** `write_ewkb_body`, delegated. */
    function WriteBody(): Bytes {
      match this
      case PtEwkb(e) => EncodePointBody(e.geom)
      case LineEwkb(e) => EncodeLineStringBody(e)
      case PolyEwkb(e) => EncodePolygonBody(e)
      case MultiPtEwkb(e) => EncodeMultiPointBody(e)
      case MultiLineEwkb(e) => EncodeMultiLineStringBody(e)
      case MultiPolyEwkb(e) => EncodeMultiPolygonBody(e)
      case CollectionEwkb(e) => EncodeCollectionBody(e)
    }

    /** The default `write_ewkb` of `EwkbWrite`, on the delegated parts. */
    function Write(): Bytes {
      WriteEwkb(TypeId(), OptSrid(), WriteBody())
    }
  }

  /**
   * `GeometryT::as_ewkb`: a point keeps its own `as_ewkb` (its own SRID and
   * shape); every other kind takes its SRID and the point type `P`.
   */
  function AsEwkbGeometry(g: Geometry, pointType: PointType): (e: EwkbGeometry)
    ensures e.OptSrid() == g.Srid()
    ensures Kind(e.TypeId()) == g.Code()
  {
    match g
    case Pt(p) => PtEwkb(AsEwkbPoint(p))
    case Line(l) => LineEwkb(Ewkb(l, l.srid, pointType))
    case Poly(y) => PolyEwkb(Ewkb(y, y.srid, pointType))
    case MultiPt(m) => MultiPtEwkb(Ewkb(m, m.srid, pointType))
    case MultiLine(m) => MultiLineEwkb(Ewkb(m, m.srid, pointType))
    case MultiPoly(m) => MultiPolyEwkb(Ewkb(m, m.srid, pointType))
    case Collection(c) => CollectionEwkb(Ewkb(c, c.srid, pointType))
  }

  /** `geometry.as_ewkb().write_ewkb(w)` for a `GeometryT<P>` whose `P` has shape `pointType`. */
  function EncodeGeometry(g: Geometry, pointType: PointType): Bytes {
    AsEwkbGeometry(g, pointType).Write()
  }

  /** The adapter of `g`'s kind with header SRID `s` and point type `pointType`. */
  function EwkbWith(g: Geometry, s: Option<i32>, pointType: PointType): EwkbGeometry {
    match g
    case Pt(p) => PtEwkb(Ewkb(p, s, pointType))
    case Line(l) => LineEwkb(Ewkb(l, s, pointType))
    case Poly(y) => PolyEwkb(Ewkb(y, s, pointType))
    case MultiPt(m) => MultiPtEwkb(Ewkb(m, s, pointType))
    case MultiLine(m) => MultiLineEwkb(Ewkb(m, s, pointType))
    case MultiPoly(m) => MultiPolyEwkb(Ewkb(m, s, pointType))
    case Collection(c) => CollectionEwkb(Ewkb(c, s, pointType))
  }

  /**
   * The generic adapter writes exactly what the adapter of its kind writes:
   * `opt_srid`, `type_id` and `write_ewkb_body` of `EwkbGeometry` each
   * delegate to the wrapped adapter.
   */
  lemma EwkbGeometryDelegates(g: Geometry, s: Option<i32>, pointType: PointType)
    ensures EwkbWith(g, s, pointType).Write() == EncodeWith(g, s, pointType)
  {
    match g
    case Pt(p) =>
      var e := Ewkb(p, s, pointType);
      assert EwkbWith(g, s, pointType) == PtEwkb(e);
      assert EncodeWith(g, s, pointType) == EncodePoint(e);
      DelegatesPoint(e);
    case Line(l) =>
      var e := Ewkb(l, s, pointType);
      assert EwkbWith(g, s, pointType) == LineEwkb(e);
      assert EncodeWith(g, s, pointType) == EncodeLineString(e);
      DelegatesLineString(e);
    case Poly(y) =>
      var e := Ewkb(y, s, pointType);
      assert EwkbWith(g, s, pointType) == PolyEwkb(e);
      assert EncodeWith(g, s, pointType) == EncodePolygon(e);
      DelegatesPolygon(e);
    case MultiPt(m) =>
      var e := Ewkb(m, s, pointType);
      assert EwkbWith(g, s, pointType) == MultiPtEwkb(e);
      assert EncodeWith(g, s, pointType) == EncodeMultiPoint(e);
      DelegatesMultiPoint(e);
    case MultiLine(m) =>
      var e := Ewkb(m, s, pointType);
      assert EwkbWith(g, s, pointType) == MultiLineEwkb(e);
      assert EncodeWith(g, s, pointType) == EncodeMultiLineString(e);
      DelegatesMultiLineString(e);
    case MultiPoly(m) =>
      var e := Ewkb(m, s, pointType);
      assert EwkbWith(g, s, pointType) == MultiPolyEwkb(e);
      assert EncodeWith(g, s, pointType) == EncodeMultiPolygon(e);
      DelegatesMultiPolygon(e);
    case Collection(c) =>
      var e := Ewkb(c, s, pointType);
      assert EwkbWith(g, s, pointType) == CollectionEwkb(e);
      assert EncodeWith(g, s, pointType) == EncodeCollection(e);
      DelegatesCollection(e);
  }

  /**
   * The steps of `EwkbGeometryDelegates`, one per kind: the generic adapter
   * around a kind's adapter takes that adapter's SRID, type id and body, so
   * `write_ewkb` writes the same bytes. Each kind is its own lemma so that
   * each is checked with only that kind's writer in view.
   */
  lemma DelegatesPoint(e: Ewkb<Point>)
    ensures PtEwkb(e).Write() == EncodePoint(e)
  {
    var a := PtEwkb(e);
    assert a.OptSrid() == e.srid && a.TypeId() == PointTypeId(e) && a.WriteBody() == EncodePointBody(e.geom);
  }

  lemma DelegatesLineString(e: Ewkb<LineString>)
    ensures LineEwkb(e).Write() == EncodeLineString(e)
  {
    var a := LineEwkb(e);
    assert a.OptSrid() == e.srid && a.TypeId() == LineStringTypeId(e) && a.WriteBody() == EncodeLineStringBody(e);
  }

  lemma DelegatesPolygon(e: Ewkb<Polygon>)
    ensures PolyEwkb(e).Write() == EncodePolygon(e)
  {
    var a := PolyEwkb(e);
    assert a.OptSrid() == e.srid && a.TypeId() == PolygonTypeId(e) && a.WriteBody() == EncodePolygonBody(e);
  }

  lemma DelegatesMultiPoint(e: Ewkb<MultiPoint>)
    ensures MultiPtEwkb(e).Write() == EncodeMultiPoint(e)
  {
    var a := MultiPtEwkb(e);
    assert a.OptSrid() == e.srid && a.TypeId() == MultiPointTypeId(e) && a.WriteBody() == EncodeMultiPointBody(e);
  }

  lemma DelegatesMultiLineString(e: Ewkb<MultiLineString>)
    ensures MultiLineEwkb(e).Write() == EncodeMultiLineString(e)
  {
    var a := MultiLineEwkb(e);
    assert a.OptSrid() == e.srid && a.TypeId() == MultiLineStringTypeId(e) && a.WriteBody() == EncodeMultiLineStringBody(e);
  }

  lemma DelegatesMultiPolygon(e: Ewkb<MultiPolygon>)
    ensures MultiPolyEwkb(e).Write() == EncodeMultiPolygon(e)
  {
    var a := MultiPolyEwkb(e);
    assert a.OptSrid() == e.srid && a.TypeId() == MultiPolygonTypeId(e) && a.WriteBody() == EncodeMultiPolygonBody(e);
  }

  lemma DelegatesCollection(e: Ewkb<GeometryCollection>)
    ensures CollectionEwkb(e).Write() == EncodeCollection(e)
  {
    var a := CollectionEwkb(e);
    assert a.OptSrid() == e.srid && a.TypeId() == CollectionTypeId(e) && a.WriteBody() == EncodeCollectionBody(e);
  }

  // --- what a written geometry reads back as

  /** Lines as read back from headers carrying `s`. */
  function LinesWithSrid(ls: seq<LineString>, s: Option<i32>): (ms: seq<LineString>)
    ensures |ms| == |ls|
    ensures forall i :: 0 <= i < |ls| ==> ms[i] == LineWithSrid(ls[i], s)
  {
    seq(|ls|, i requires 0 <= i < |ls| => LineWithSrid(ls[i], s))
  }

  /** A polygon as read back from a header carrying `s`: every ring, and every point, gets `s`. */
  function PolygonWithSrid(y: Polygon, s: Option<i32>): Polygon {
    Container(LinesWithSrid(y.items, s), s)
  }

  /** Polygons as read back from headers carrying `s`. */
  function PolygonsWithSrid(ys: seq<Polygon>, s: Option<i32>): (zs: seq<Polygon>)
    ensures |zs| == |ys|
    ensures forall i :: 0 <= i < |ys| ==> zs[i] == PolygonWithSrid(ys[i], s)
  {
    seq(|ys|, i requires 0 <= i < |ys| => PolygonWithSrid(ys[i], s))
  }

  /**
   * What reading back `g` written under header SRID `s` gives: the SRID of
   * the header goes to `g` and to everything read as a bare body inside it;
   * items written as complete values with no SRID of their own come back
   * without one; a collection always comes back without one.
   */
  function Reread(g: Geometry, s: Option<i32>): Geometry
    decreases g
  {
    match g
    case Pt(p) => Pt(p.WithSrid(s))
    case Line(l) => Line(LineWithSrid(l, s))
    case Poly(y) => Poly(PolygonWithSrid(y, s))
    case MultiPt(m) => MultiPt(Container(AllWithSrid(m.items, None), s))
    case MultiLine(m) => MultiLine(Container(LinesWithSrid(m.items, None), s))
    case MultiPoly(m) => MultiPoly(Container(PolygonsWithSrid(m.items, None), s))
    case Collection(c) => Collection(Container(RereadElements(c.items), None))
  }

  /** The elements of a collection as read back: each was written with no SRID. */
  function RereadElements(gs: seq<Geometry>): (hs: seq<Geometry>)
    ensures |hs| == |gs|
    ensures forall i :: 0 <= i < |gs| ==> hs[i] == Reread(gs[i], None)
    decreases gs
  {
    if |gs| == 0 then [] else [Reread(gs[0], None)] + RereadElements(gs[1..])
  }

  predicate LinesConform(ls: seq<LineString>, pointType: PointType) {
    |ls| < 0x1_0000_0000 && forall l <- ls :: PointsConform(l.items, pointType)
  }

  predicate PolygonsConform(ys: seq<Polygon>, pointType: PointType) {
    |ys| < 0x1_0000_0000 && forall y <- ys :: LinesConform(y.items, pointType)
  }

  /**
   * The geometries `GeometryT<P>` holds when `P` has shape `pointType`: all
   * points of that shape, and every count small enough for its `u32` field.
   */
  predicate Conforms(g: Geometry, pointType: PointType)
    decreases g
  {
    match g
    case Pt(p) => PointTypeOf(p) == pointType
    case Line(l) => PointsConform(l.items, pointType)
    case Poly(y) => LinesConform(y.items, pointType)
    case MultiPt(m) => PointsConform(m.items, pointType)
    case MultiLine(m) => LinesConform(m.items, pointType)
    case MultiPoly(m) => PolygonsConform(m.items, pointType)
    case Collection(c) => |c.items| < 0x1_0000_0000 && forall x <- c.items :: Conforms(x, pointType)
  }

  // --- round trips

  /** A written polygon body, read under flags matching its point type, gives every ring the SRID passed in. */
  lemma {:induction false} ReadPolygonBodyOfWritten(e: Ewkb<Polygon>, typeId: u32, srid: Option<i32>, rest: Bytes)
    requires LinesConform(e.geom.items, e.pointType)
    requires HasZ(typeId) <==> e.pointType.WithZ()
    requires HasM(typeId) <==> e.pointType.WithM()
    ensures DecodePolygonBody(EncodePolygonBody(e) + rest, false, typeId, srid, e.pointType)
            == Ok((PolygonWithSrid(e.geom, srid), rest))
  {
    var rings := e.geom.items;
    var enc := LineStringBodyWriter(e.pointType);
    var joined := Join(rings, enc) + rest;
    assert EncodePolygonBody(e) + rest == CountLe(|rings|) + joined;
    ReadCountOfWritten(|rings|, joined);
    var dec := LineStringBodyReader(false, typeId, srid, e.pointType);
    var ys := LinesWithSrid(rings, srid);
    forall i, r | 0 <= i < |rings|
      ensures dec(enc(rings[i]) + r) == Ok((ys[i], r))
    {
      ReadLineStringBodyOfWritten(Ewkb(rings[i], None, e.pointType), typeId, srid, r);
    }
    DecodeManyOfJoin(rings, ys, enc, dec, rest);
  }

  /** A polygon written under any SRID is read back with that SRID on the polygon, its rings and their points. */
  lemma ReadPolygonOfWritten(e: Ewkb<Polygon>, rest: Bytes)
    requires LinesConform(e.geom.items, e.pointType)
    ensures DecodePolygon(EncodePolygon(e) + rest, e.pointType) == Ok((PolygonWithSrid(e.geom, e.srid), rest))
  {
    var t := PolygonTypeId(e);
    ReadEwkbOfWritten(t, e.srid, EncodePolygonBody(e), rest, PolygonBodyDecoder(e.pointType));
    ReadPolygonBodyOfWritten(e, t, e.srid, rest);
  }

  /**
   * `read_ewkb` of a concrete type never checks the kind in the header: an
   * empty linestring (kind 0x02) is accepted by the polygon reader as an
   * empty polygon with the line's SRID.
   */
  lemma EmptyLineStringReadsAsPolygon(s: Option<i32>, pointType: PointType)
    ensures DecodePolygon(EncodeLineString(Ewkb(Container([], s), s, pointType)), pointType) == Ok((Container([], s), []))
  {
    var e: Ewkb<LineString> := Ewkb(Container([], s), s, pointType);
    var t := LineStringTypeId(e);
    var body := EncodeLineStringBody(e);
    var raw := EncodeLineString(e);
    assert DecodePolygonBody(body, false, t, s, pointType) == Ok((Container([], s), [])) by {
      EmptyPolygonBody(body, t, s, pointType);
    }
    assert ReadEwkb(raw, PolygonBodyDecoder(pointType)) == Ok((Container([], s), [])) by {
      ReadEwkbOfWritten(t, s, body, [], PolygonBodyDecoder(pointType));
      assert raw + [] == raw && body + [] == body;
    }
    PolygonIsEwkbRead(raw, pointType);
  }

  /** `PolygonT::read_ewkb` is the header followed by the polygon body. */
  lemma PolygonIsEwkbRead(raw: Bytes, pointType: PointType)
    ensures DecodePolygon(raw, pointType) == ReadEwkb(raw, PolygonBodyDecoder(pointType))
  {
  }

  lemma EmptyPolygonBody(body: Bytes, typeId: u32, s: Option<i32>, pointType: PointType)
    requires body == CountLe(0) + Join([], EncodePointBody)
    ensures DecodePolygonBody(body, false, typeId, s, pointType) == Ok((Container([], s), []))
  {
    ReadCountOfWritten(0, []);
    assert body == CountLe(0) + [];
  }

  /** A written multilinestring body is read back with each line, written with no SRID, coming back without one. */
  lemma {:induction false} ReadMultiLineStringBodyOfWritten(e: Ewkb<MultiLineString>, typeId: u32, srid: Option<i32>, rest: Bytes)
    requires LinesConform(e.geom.items, e.pointType)
    ensures DecodeMultiLineStringBody(EncodeMultiLineStringBody(e) + rest, false, typeId, srid, e.pointType)
            == Ok((Container(LinesWithSrid(e.geom.items, None), srid), rest))
  {
    var lines := e.geom.items;
    var enc := LineStringWriter(e.pointType);
    var joined := Join(lines, enc) + rest;
    assert EncodeMultiLineStringBody(e) + rest == CountLe(|lines|) + joined;
    ReadCountOfWritten(|lines|, joined);
    var dec := LineStringReader(e.pointType);
    var ys := LinesWithSrid(lines, None);
    forall i, r | 0 <= i < |lines|
      ensures dec(enc(lines[i]) + r) == Ok((ys[i], r))
    {
      ReadLineStringOfWritten(Ewkb(lines[i], None, e.pointType), r);
    }
    DecodeManyOfJoin(lines, ys, enc, dec, rest);
  }

  lemma ReadMultiLineStringOfWritten(e: Ewkb<MultiLineString>, rest: Bytes)
    requires LinesConform(e.geom.items, e.pointType)
    ensures DecodeMultiLineString(EncodeMultiLineString(e) + rest, e.pointType)
            == Ok((Container(LinesWithSrid(e.geom.items, None), e.srid), rest))
  {
    var t := MultiLineStringTypeId(e);
    ReadEwkbOfWritten(t, e.srid, EncodeMultiLineStringBody(e), rest, MultiLineStringBodyDecoder(e.pointType));
    ReadMultiLineStringBodyOfWritten(e, t, e.srid, rest);
  }

  /** A written multipolygon body is read back with each polygon, written with no SRID, coming back without one. */
  lemma {:induction false} ReadMultiPolygonBodyOfWritten(e: Ewkb<MultiPolygon>, typeId: u32, srid: Option<i32>, rest: Bytes)
    requires PolygonsConform(e.geom.items, e.pointType)
    ensures DecodeMultiPolygonBody(EncodeMultiPolygonBody(e) + rest, false, typeId, srid, e.pointType)
            == Ok((Container(PolygonsWithSrid(e.geom.items, None), srid), rest))
  {
    var polygons := e.geom.items;
    var enc := PolygonWriter(e.pointType);
    var joined := Join(polygons, enc) + rest;
    assert EncodeMultiPolygonBody(e) + rest == CountLe(|polygons|) + joined;
    ReadCountOfWritten(|polygons|, joined);
    var dec := PolygonReader(e.pointType);
    var ys := PolygonsWithSrid(polygons, None);
    forall i, r | 0 <= i < |polygons|
      ensures dec(enc(polygons[i]) + r) == Ok((ys[i], r))
    {
      ReadPolygonOfWritten(Ewkb(polygons[i], None, e.pointType), r);
    }
    DecodeManyOfJoin(polygons, ys, enc, dec, rest);
  }

  lemma ReadMultiPolygonOfWritten(e: Ewkb<MultiPolygon>, rest: Bytes)
    requires PolygonsConform(e.geom.items, e.pointType)
    ensures DecodeMultiPolygon(EncodeMultiPolygon(e) + rest, e.pointType)
            == Ok((Container(PolygonsWithSrid(e.geom.items, None), e.srid), rest))
  {
    var t := MultiPolygonTypeId(e);
    ReadEwkbOfWritten(t, e.srid, EncodeMultiPolygonBody(e), rest, MultiPolygonBodyDecoder(e.pointType));
    ReadMultiPolygonBodyOfWritten(e, t, e.srid, rest);
  }

  /** The header `write_ewkb` emits takes `GeometryT::read_ewkb` to the body reader with the written flags and SRID. */
  lemma DecodeGeometryOfWritten(typeId: u32, srid: Option<i32>, body: Bytes, rest: Bytes, pointType: PointType)
    requires HasSrid(typeId) <==> srid.Some?
    ensures DecodeGeometry(WriteEwkb(typeId, srid, body) + rest, pointType)
            == DecodeGeometryBody(body + rest, false, typeId, srid, pointType)
  {
    WriteEwkbThenMore(typeId, srid, body, rest);
    ReadHeaderOfWritten(typeId, srid, body + rest);
  }

  /**
   * Any geometry whose points have the shape of `P`, written through the
   * adapter of its kind under header SRID `s`, is read back by
   * `GeometryT::read_ewkb` as `Reread(g, s)`, leaving what follows.
   */
  lemma {:induction false} ReadGeometryOfWritten(g: Geometry, s: Option<i32>, pointType: PointType, rest: Bytes)
    requires Conforms(g, pointType)
    ensures DecodeGeometry(EncodeWith(g, s, pointType) + rest, pointType) == Ok((Reread(g, s), rest))
    decreases g, 2
  {
    match g
    case Pt(p) => ReadPointAsGeometry(Ewkb(p, s, pointType), rest);
    case Line(l) => ReadLineStringAsGeometry(Ewkb(l, s, pointType), rest);
    case Poly(y) => ReadPolygonAsGeometry(Ewkb(y, s, pointType), rest);
    case MultiPt(m) => ReadMultiPointAsGeometry(Ewkb(m, s, pointType), rest);
    case MultiLine(m) => ReadMultiLineStringAsGeometry(Ewkb(m, s, pointType), rest);
    case MultiPoly(m) => ReadMultiPolygonAsGeometry(Ewkb(m, s, pointType), rest);
    case Collection(c) => ReadCollectionAsGeometry(Ewkb(c, s, pointType), rest);
  }

  /** The dispatch of `GeometryT::read_ewkb` on each kind code hands the body to that kind's reader. */
  lemma DispatchPoint(raw: Bytes, isBe: bool, typeId: u32, srid: Option<i32>, pointType: PointType, p: Point, rest: Bytes)
    requires Kind(typeId) == 0x01
    requires DecodePointBody(raw, isBe, typeId, srid, pointType) == Ok((p, rest))
    ensures DecodeGeometryBody(raw, isBe, typeId, srid, pointType) == Ok((Pt(p), rest))
  {
  }

  lemma DispatchLineString(raw: Bytes, isBe: bool, typeId: u32, srid: Option<i32>, pointType: PointType, l: LineString, rest: Bytes)
    requires Kind(typeId) == 0x02
    requires DecodeLineStringBody(raw, isBe, typeId, srid, pointType) == Ok((l, rest))
    ensures DecodeGeometryBody(raw, isBe, typeId, srid, pointType) == Ok((Line(l), rest))
  {
  }

  lemma DispatchPolygon(raw: Bytes, isBe: bool, typeId: u32, srid: Option<i32>, pointType: PointType, y: Polygon, rest: Bytes)
    requires Kind(typeId) == 0x03
    requires DecodePolygonBody(raw, isBe, typeId, srid, pointType) == Ok((y, rest))
    ensures DecodeGeometryBody(raw, isBe, typeId, srid, pointType) == Ok((Poly(y), rest))
  {
  }

  lemma DispatchMultiPoint(raw: Bytes, isBe: bool, typeId: u32, srid: Option<i32>, pointType: PointType, m: MultiPoint, rest: Bytes)
    requires Kind(typeId) == 0x04
    requires DecodeMultiPointBody(raw, isBe, typeId, srid, pointType) == Ok((m, rest))
    ensures DecodeGeometryBody(raw, isBe, typeId, srid, pointType) == Ok((MultiPt(m), rest))
  {
  }

  lemma DispatchMultiLineString(raw: Bytes, isBe: bool, typeId: u32, srid: Option<i32>, pointType: PointType, m: MultiLineString, rest: Bytes)
    requires Kind(typeId) == 0x05
    requires DecodeMultiLineStringBody(raw, isBe, typeId, srid, pointType) == Ok((m, rest))
    ensures DecodeGeometryBody(raw, isBe, typeId, srid, pointType) == Ok((MultiLine(m), rest))
  {
  }

  lemma DispatchMultiPolygon(raw: Bytes, isBe: bool, typeId: u32, srid: Option<i32>, pointType: PointType, m: MultiPolygon, rest: Bytes)
    requires Kind(typeId) == 0x06
    requires DecodeMultiPolygonBody(raw, isBe, typeId, srid, pointType) == Ok((m, rest))
    ensures DecodeGeometryBody(raw, isBe, typeId, srid, pointType) == Ok((MultiPoly(m), rest))
  {
  }

  lemma DispatchCollection(raw: Bytes, isBe: bool, typeId: u32, srid: Option<i32>, pointType: PointType, c: GeometryCollection, rest: Bytes)
    requires Kind(typeId) == 0x07
    requires DecodeCollectionBody(raw, isBe, typeId, srid, pointType) == Ok((c, rest))
    ensures DecodeGeometryBody(raw, isBe, typeId, srid, pointType) == Ok((Collection(c), rest))
  {
  }

  /** A written point, read by `GeometryT::read_ewkb` of the same shape, comes back with the header SRID. */
  lemma ReadPointAsGeometry(e: Ewkb<Point>, rest: Bytes)
    requires PointTypeOf(e.geom) == e.pointType
    ensures DecodeGeometry(EncodePoint(e) + rest, e.pointType) == Ok((Pt(e.geom.WithSrid(e.srid)), rest))
  {
    var t := PointTypeId(e);
    var body := EncodePointBody(e.geom) + rest;
    DecodeGeometryOfWritten(t, e.srid, EncodePointBody(e.geom), rest, e.pointType);
    ReadPointBodyOfWritten(e.geom, t, e.srid, e.pointType, rest);
    NewFromOwnVals(e.geom, e.srid);
    DispatchPoint(body, false, t, e.srid, e.pointType, e.geom.WithSrid(e.srid), rest);
  }

  /** A written line comes back as a `LineString` geometry whose points carry the header SRID. */
  lemma ReadLineStringAsGeometry(e: Ewkb<LineString>, rest: Bytes)
    requires PointsConform(e.geom.items, e.pointType)
    ensures DecodeGeometry(EncodeLineString(e) + rest, e.pointType) == Ok((Line(LineWithSrid(e.geom, e.srid)), rest))
  {
    var t := LineStringTypeId(e);
    DecodeGeometryOfWritten(t, e.srid, EncodeLineStringBody(e), rest, e.pointType);
    ReadLineStringBodyOfWritten(e, t, e.srid, rest);
    DispatchLineString(EncodeLineStringBody(e) + rest, false, t, e.srid, e.pointType, Container(AllWithSrid(e.geom.items, e.srid), e.srid), rest);
  }

  /** A written polygon comes back as a `Polygon` geometry whose rings and points carry the header SRID. */
  lemma ReadPolygonAsGeometry(e: Ewkb<Polygon>, rest: Bytes)
    requires LinesConform(e.geom.items, e.pointType)
    ensures DecodeGeometry(EncodePolygon(e) + rest, e.pointType) == Ok((Poly(PolygonWithSrid(e.geom, e.srid)), rest))
  {
    var t := PolygonTypeId(e);
    DecodeGeometryOfWritten(t, e.srid, EncodePolygonBody(e), rest, e.pointType);
    ReadPolygonBodyOfWritten(e, t, e.srid, rest);
    DispatchPolygon(EncodePolygonBody(e) + rest, false, t, e.srid, e.pointType, PolygonWithSrid(e.geom, e.srid), rest);
  }

  /** A written multipoint comes back as a `MultiPoint` geometry with the header SRID and points without one. */
  lemma ReadMultiPointAsGeometry(e: Ewkb<MultiPoint>, rest: Bytes)
    requires PointsConform(e.geom.items, e.pointType)
    ensures DecodeGeometry(EncodeMultiPoint(e) + rest, e.pointType)
            == Ok((MultiPt(Container(AllWithSrid(e.geom.items, None), e.srid)), rest))
  {
    var t := MultiPointTypeId(e);
    DecodeGeometryOfWritten(t, e.srid, EncodeMultiPointBody(e), rest, e.pointType);
    ReadMultiPointBodyOfWritten(e, t, e.srid, rest);
    DispatchMultiPoint(EncodeMultiPointBody(e) + rest, false, t, e.srid, e.pointType, Container(AllWithSrid(e.geom.items, None), e.srid), rest);
  }

  /** A written multilinestring comes back as a `MultiLineString` geometry with the header SRID and lines without one. */
  lemma ReadMultiLineStringAsGeometry(e: Ewkb<MultiLineString>, rest: Bytes)
    requires LinesConform(e.geom.items, e.pointType)
    ensures DecodeGeometry(EncodeMultiLineString(e) + rest, e.pointType)
            == Ok((MultiLine(Container(LinesWithSrid(e.geom.items, None), e.srid)), rest))
  {
    var t := MultiLineStringTypeId(e);
    DecodeGeometryOfWritten(t, e.srid, EncodeMultiLineStringBody(e), rest, e.pointType);
    ReadMultiLineStringBodyOfWritten(e, t, e.srid, rest);
    DispatchMultiLineString(EncodeMultiLineStringBody(e) + rest, false, t, e.srid, e.pointType, Container(LinesWithSrid(e.geom.items, None), e.srid), rest);
  }

  /** A written multipolygon comes back as a `MultiPolygon` geometry with the header SRID and polygons without one. */
  lemma ReadMultiPolygonAsGeometry(e: Ewkb<MultiPolygon>, rest: Bytes)
    requires PolygonsConform(e.geom.items, e.pointType)
    ensures DecodeGeometry(EncodeMultiPolygon(e) + rest, e.pointType)
            == Ok((MultiPoly(Container(PolygonsWithSrid(e.geom.items, None), e.srid)), rest))
  {
    var t := MultiPolygonTypeId(e);
    DecodeGeometryOfWritten(t, e.srid, EncodeMultiPolygonBody(e), rest, e.pointType);
    ReadMultiPolygonBodyOfWritten(e, t, e.srid, rest);
    DispatchMultiPolygon(EncodeMultiPolygonBody(e) + rest, false, t, e.srid, e.pointType, Container(PolygonsWithSrid(e.geom.items, None), e.srid), rest);
  }

  /** A written collection comes back with its elements as they read back and, whatever its header says, no SRID. */
  lemma {:induction false} ReadCollectionAsGeometry(e: Ewkb<GeometryCollection>, rest: Bytes)
    requires |e.geom.items| < 0x1_0000_0000 && forall x <- e.geom.items :: Conforms(x, e.pointType)
    ensures DecodeGeometry(EncodeCollection(e) + rest, e.pointType)
            == Ok((Collection(Container(RereadElements(e.geom.items), None)), rest))
    decreases e.geom, 1
  {
    var t := CollectionTypeId(e);
    DecodeGeometryOfWritten(t, e.srid, EncodeCollectionBody(e), rest, e.pointType);
    ReadCollectionBodyOfWritten(e, t, e.srid, rest);
    DispatchCollection(EncodeCollectionBody(e) + rest, false, t, e.srid, e.pointType, Container(RereadElements(e.geom.items), None), rest);
  }

  /**
   * A written collection body is read back element by element, each element
   * as it reads back with no SRID; the collection itself has none.
   */
  lemma {:induction false} ReadCollectionBodyOfWritten(e: Ewkb<GeometryCollection>, typeId: u32, srid: Option<i32>, rest: Bytes)
    requires |e.geom.items| < 0x1_0000_0000 && forall x <- e.geom.items :: Conforms(x, e.pointType)
    ensures DecodeCollectionBody(EncodeCollectionBody(e) + rest, false, typeId, srid, e.pointType)
            == Ok((Container(RereadElements(e.geom.items), None), rest))
    decreases e.geom, 0
  {
    var gs := e.geom.items;
    var joined := EncodeElements(gs, e.pointType) + rest;
    assert EncodeCollectionBody(e) + rest == CountLe(|gs|) + joined;
    ReadCountOfWritten(|gs|, joined);
    ReadElementsOfWritten(gs, e.pointType, rest);
  }

  /** The written elements of a collection are read back one by one by the element loop, leaving what follows. */
  lemma {:induction false} ReadElementsOfWritten(gs: seq<Geometry>, pointType: PointType, rest: Bytes)
    requires forall x <- gs :: Conforms(x, pointType)
    ensures DecodeGeometries(EncodeElements(gs, pointType) + rest, |gs|, pointType) == Ok((RereadElements(gs), rest))
    decreases gs
  {
    if |gs| > 0 {
      var tail := EncodeElements(gs[1..], pointType) + rest;
      var raw := EncodeWith(gs[0], None, pointType) + tail;
      assert Conforms(gs[0], pointType);
      assert forall x <- gs[1..] :: Conforms(x, pointType);
      ElementsCons(gs, pointType, rest);
      assert EncodeElements(gs, pointType) + rest == raw;
      ReadGeometryOfWritten(gs[0], None, pointType, tail);
      ReadElementsOfWritten(gs[1..], pointType, rest);
      DecodeGeometriesCons(raw, |gs|, pointType, Reread(gs[0], None), tail, RereadElements(gs[1..]), rest);
      RereadElementsCons(gs);
    } else {
      assert EncodeElements(gs, pointType) + rest == rest;
    }
  }

  /** The first element is written, and read back, in front of the others. */
  lemma ElementsCons(gs: seq<Geometry>, pointType: PointType, rest: Bytes)
    requires |gs| > 0
    ensures EncodeElements(gs, pointType) + rest == EncodeWith(gs[0], None, pointType) + (EncodeElements(gs[1..], pointType) + rest)
    ensures |gs[1..]| == |gs| - 1
  {
    var first := EncodeWith(gs[0], None, pointType);
    var others := EncodeElements(gs[1..], pointType);
    Reassociate(first, others, rest, EncodeElements(gs, pointType));
  }

  lemma Reassociate(a: Bytes, b: Bytes, c: Bytes, ab: Bytes)
    requires ab == a + b
    ensures ab + c == a + (b + c)
  {
  }

  lemma RereadElementsCons(gs: seq<Geometry>)
    requires |gs| > 0
    ensures RereadElements(gs) == [Reread(gs[0], None)] + RereadElements(gs[1..])
  {
  }

  /** The element loop reads one more geometry in front of what the rest of it reads. */
  lemma DecodeGeometriesCons(raw: Bytes, n: nat, pointType: PointType, g: Geometry, tail: Bytes, hs: seq<Geometry>, rest: Bytes)
    requires n > 0
    requires DecodeGeometry(raw, pointType) == Ok((g, tail))
    requires DecodeGeometries(tail, n - 1, pointType) == Ok((hs, rest))
    ensures DecodeGeometries(raw, n, pointType) == Ok(([g] + hs, rest))
  {
    DecodeGeometriesStep(raw, n, pointType);
  }

  /**
   * `as_ewkb` then `GeometryT::read_ewkb`: every geometry whose points have
   * the shape of `P` is read back as `Reread(g, g.Srid())`.
   */
  lemma GeometryRoundTrip(g: Geometry, pointType: PointType, rest: Bytes)
    requires Conforms(g, pointType)
    ensures DecodeGeometry(EncodeGeometry(g, pointType) + rest, pointType) == Ok((Reread(g, g.Srid()), rest))
  {
    assert AsEwkbGeometry(g, pointType) == EwkbWith(g, g.Srid(), pointType);
    EwkbGeometryDelegates(g, g.Srid(), pointType);
    ReadGeometryOfWritten(g, g.Srid(), pointType, rest);
  }
}
