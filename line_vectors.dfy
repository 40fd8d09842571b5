/**
 * Worked examples of lines from the tests: `LINESTRING (10 -20, 0 -0.5)`
 * with SRID 4326, whose header carries the SRID flag and the SRID, and the
 * same line without SRID, whose bytes fail to read as a polygon.
 */
module LineVectors {
  import opened Wrappers
  import opened Encoding
  import opened Ewkb
  import opened Points
  import opened Containers
  import opened PointContainers
  import opened Geometries
  import opened Vectors

  // --- a line with an SRID

  const Zero: F64 := 0
  const MinusHalf: F64 := 0xBFE0_0000_0000_0000

  /** Type id 2 with the SRID flag, and the SRID 4326, little-endian. */
  lemma SridLineHeaderBytes()
    ensures LineStringTypeId(Ewkb(Container([], Some(4326)), Some(4326), PointType.Point)) == 0x2000_0002
    ensures U32Le(0x2000_0002) == [0x02, 0x00, 0x00, 0x20]
    ensures I32Le(4326) == [0xE6, 0x10, 0x00, 0x00]
  {
    assert WkbTypeId(PointType.Point, Some(4326)) == 0x2000_0000;
  }

  lemma ZeroBytes()
    ensures F64Le(Zero) == [0x00, 0x00, 0x00, 0x00, 0x00, 0x00, 0x00, 0x00]
  {
  }

  lemma MinusHalfBytes()
    ensures F64Le(MinusHalf) == [0x00, 0x00, 0x00, 0x00, 0x00, 0x00, 0xE0, 0xBF]
  {
  }

  /** The body of an xy point: x then y, with no SRID of its own. */
  lemma PlainPointBody(x: F64, y: F64, s: Option<i32>)
    ensures EncodePointBody(Point.Point(x, y, s)) == F64Le(x) + F64Le(y)
  {
  }

  /** Two items joined: the first one's bytes, then the second one's. */
  lemma JoinPair<T>(x: T, y: T, enc: T -> Bytes)
    ensures Join([x, y], enc) == enc(x) + enc(y)
  {
    assert [x, y][1..] == [y] && [y][1..] == [];
    assert Join([y], enc) == enc(y) + [];
    assert Join([x, y], enc) == enc(x) + Join([y], enc);
  }

  /** The body of a two-point line: the count 2, then the two bare point bodies. */
  lemma TwoPointLineBody(e: Ewkb<LineString>, p: Point, q: Point)
    requires e.geom.items == [p, q]
    ensures EncodeLineStringBody(e) == [0x02, 0x00, 0x00, 0x00] + (EncodePointBody(p) + EncodePointBody(q))
  {
    assert EncodeLineStringBody(e) == CountLe(2) + Join([p, q], EncodePointBody);
    assert CountLe(2) == [0x02, 0x00, 0x00, 0x00];
    JoinPair(p, q, EncodePointBody);
  }

  lemma Flatten(h: Bytes, c: Bytes, x1: Bytes, y1: Bytes, x2: Bytes, y2: Bytes)
    ensures h + (c + ((x1 + y1) + (x2 + y2))) == h + c + x1 + y1 + x2 + y2
  {
  }

  /**
   * `LineStringT::<Point> { srid: Some(4326), points: [(10, -20), (0, -0.5)] }.as_ewkb()`
   * writes the order byte, type id 0x2000_0002, the SRID, the count and the
   * four coordinates; the points' own SRIDs are not written.
   */
  lemma SridLineTenMinusTwenty()
    ensures
      var s := Some(4326);
      var l := Container([Point.Point(Ten, MinusTwenty, s), Point.Point(Zero, MinusHalf, s)], s);
      EncodeLineString(AsEwkbContainer(l, PointType.Point))
      == [0x01]
         + [0x02, 0x00, 0x00, 0x20]
         + [0xE6, 0x10, 0x00, 0x00]
         + [0x02, 0x00, 0x00, 0x00]
         + [0x00, 0x00, 0x00, 0x00, 0x00, 0x00, 0x24, 0x40]
         + [0x00, 0x00, 0x00, 0x00, 0x00, 0x00, 0x34, 0xC0]
         + [0x00, 0x00, 0x00, 0x00, 0x00, 0x00, 0x00, 0x00]
         + [0x00, 0x00, 0x00, 0x00, 0x00, 0x00, 0xE0, 0xBF]
  {
    var s := Some(4326);
    var p := Point.Point(Ten, MinusTwenty, s);
    var q := Point.Point(Zero, MinusHalf, s);
    var e := AsEwkbContainer(Container([p, q], s), PointType.Point);
    SridLineHeaderBytes();
    TenBytes();
    MinusTwentyBytes();
    ZeroBytes();
    MinusHalfBytes();
    PlainPointBody(Ten, MinusTwenty, s);
    PlainPointBody(Zero, MinusHalf, s);
    TwoPointLineBody(e, p, q);
    assert LineStringTypeId(e) == 0x2000_0002;
    assert EncodeLineString(e) == [0x01] + [0x02, 0x00, 0x00, 0x20] + [0xE6, 0x10, 0x00, 0x00] + EncodeLineStringBody(e);
    Flatten([0x01] + [0x02, 0x00, 0x00, 0x20] + [0xE6, 0x10, 0x00, 0x00], [0x02, 0x00, 0x00, 0x00],
            [0x00, 0x00, 0x00, 0x00, 0x00, 0x00, 0x24, 0x40], [0x00, 0x00, 0x00, 0x00, 0x00, 0x00, 0x34, 0xC0],
            [0x00, 0x00, 0x00, 0x00, 0x00, 0x00, 0x00, 0x00], [0x00, 0x00, 0x00, 0x00, 0x00, 0x00, 0xE0, 0xBF]);
  }

  // --- a line read as a polygon

  /** `LINESTRING (10 -20, 0 -0.5)` without SRID: type id 2, a count of 2, then the four coordinates. */
  const LineTenMinusTwentyBytes: Bytes :=
    [0x01, 0x02, 0x00, 0x00, 0x00]
    + [0x02, 0x00, 0x00, 0x00]
    + [0x00, 0x00, 0x00, 0x00, 0x00, 0x00, 0x24, 0x40]
    + [0x00, 0x00, 0x00, 0x00, 0x00, 0x00, 0x34, 0xC0]
    + [0x00, 0x00, 0x00, 0x00, 0x00, 0x00, 0x00, 0x00]
    + [0x00, 0x00, 0x00, 0x00, 0x00, 0x00, 0xE0, 0xBF]

  /** A little-endian header with type id 2 and no SRID. */
  lemma PlainLineHeader(raw: Bytes)
    requires |raw| >= 5 && raw[..5] == [0x01, 0x02, 0x00, 0x00, 0x00]
    ensures ReadHeader(raw) == Ok((Header(false, 2, None), raw[5..]))
  {
    assert raw[1..][..4] == raw[1..5] == [0x02, 0x00, 0x00, 0x00];
    LeValueOfFour(raw[1..5]);
  }

  /** A zero count read as a ring: the empty ring, four bytes on. */
  lemma EmptyRingBody(raw: Bytes, pointType: PointType)
    requires |raw| >= 4 && raw[..4] == [0x00, 0x00, 0x00, 0x00]
    ensures DecodeLineStringBody(raw, false, 2, None, pointType) == Ok((Container([], None), raw[4..]))
  {
    LeValueOfFour(raw[..4]);
  }

  /**
   * The bytes of 10.0 read as a ring: the count 0x4024_0000 asks for far more
   * points than the 24 bytes left hold, and the second point runs out.
   */
  lemma OverlongRingBody(raw: Bytes, pointType: PointType)
    requires |raw| == 28 && raw[..4] == [0x00, 0x00, 0x24, 0x40]
    ensures DecodeLineStringBody(raw, false, 2, None, pointType) == Err(UnexpectedEof)
  {
    LeValueOfFour(raw[..4]);
    var n: nat := 0x4024_0000;
    var dec := PointBodyReader(false, 2, None, pointType);
    assert ReadU32(raw, false) == Ok((n as u32, raw[4..]));
    assert PointBodySize(2) == 16;
    DecodeManyStep(raw[4..], n, dec);
    DecodeManyStep(raw[4..][16..], n - 1, dec);
  }

  /** The body of the line read as a polygon: an empty first ring, then the overlong second one. */
  lemma LineBodyAsPolygonBody(body: Bytes, pointType: PointType)
    requires |body| == 36
    requires body[..4] == [0x02, 0x00, 0x00, 0x00]
    requires body[4..8] == [0x00, 0x00, 0x00, 0x00]
    requires body[8..12] == [0x00, 0x00, 0x24, 0x40]
    ensures DecodePolygonBody(body, false, 2, None, pointType) == Err(UnexpectedEof)
  {
    LeValueOfFour(body[..4]);
    var dec := LineStringBodyReader(false, 2, None, pointType);
    assert ReadU32(body, false) == Ok((2, body[4..]));
    EmptyRingBody(body[4..], pointType);
    OverlongRingBody(body[4..][4..], pointType);
    DecodeManyStep(body[4..], 2, dec);
    DecodeManyStep(body[4..][4..], 1, dec);
  }

  /** The line's header and its point count, which a polygon reader takes for the ring count. */
  lemma LineTenMinusTwentyHeader()
    ensures |LineTenMinusTwentyBytes| == 41
    ensures LineTenMinusTwentyBytes[..5] == [0x01, 0x02, 0x00, 0x00, 0x00]
    ensures LineTenMinusTwentyBytes[5..][..4] == [0x02, 0x00, 0x00, 0x00]
  {
    var raw := LineTenMinusTwentyBytes;
    assert raw[0] == 0x01 && raw[1] == 0x02 && raw[2] == raw[3] == raw[4] == 0x00;
    assert raw[5] == 0x02 && raw[6] == raw[7] == raw[8] == 0x00;
  }

  /** The bytes of x = 10.0: to a polygon reader, an empty ring's count and then the next ring's count. */
  lemma LineTenMinusTwentyFirstPoint()
    ensures LineTenMinusTwentyBytes[5..][4..8] == [0x00, 0x00, 0x00, 0x00]
    ensures LineTenMinusTwentyBytes[5..][8..12] == [0x00, 0x00, 0x24, 0x40]
  {
    var raw := LineTenMinusTwentyBytes;
    assert raw[9] == raw[10] == raw[11] == raw[12] == raw[13] == raw[14] == 0x00;
    assert raw[15] == 0x24 && raw[16] == 0x40;
  }

  /** `PolygonT::<Point>::read_ewkb` of the bytes of a two-point line fails with an unexpected end of input. */
  lemma LineStringReadAsPolygon()
    ensures DecodePolygon(LineTenMinusTwentyBytes, PointType.Point) == Err(UnexpectedEof)
  {
    var raw := LineTenMinusTwentyBytes;
    LineTenMinusTwentyHeader();
    LineTenMinusTwentyFirstPoint();
    PlainLineHeader(raw);
    LineBodyAsPolygonBody(raw[5..], PointType.Point);
    assert ReadEwkb(raw, PolygonBodyDecoder(PointType.Point)) == DecodePolygonBody(raw[5..], false, 2, None, PointType.Point);
  }
}
