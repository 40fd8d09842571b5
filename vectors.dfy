/**
 * The worked example of the writer's tests: the point (10, -20) without
 * SRID, whose EWKB is the little-endian order byte, type id 1 and the two
 * coordinates, and whose hex text is the one the tests expect.
 */
module Vectors {
  import opened Wrappers
  import opened Encoding
  import opened Ewkb
  import opened Points

  /** The bits of the `f64` values 10.0 and -20.0. */
  const Ten: F64 := 0x4024_0000_0000_0000
  const MinusTwenty: F64 := 0xC034_0000_0000_0000

  const PointTenMinusTwentyBytes: Bytes :=
    [0x01, 0x01, 0x00, 0x00, 0x00,
     0x00, 0x00, 0x00, 0x00, 0x00, 0x00, 0x24, 0x40,
     0x00, 0x00, 0x00, 0x00, 0x00, 0x00, 0x34, 0xC0]

  const PointTenMinusTwentyHexText: string := "0101000000000000000000244000000000000034C0"

  lemma TypeIdOne()
    ensures U32Le(1) == [0x01, 0x00, 0x00, 0x00]
  {
  }

  lemma TenBytes()
    ensures F64Le(Ten) == [0x00, 0x00, 0x00, 0x00, 0x00, 0x00, 0x24, 0x40]
  {
  }

  lemma MinusTwentyBytes()
    ensures F64Le(MinusTwenty) == [0x00, 0x00, 0x00, 0x00, 0x00, 0x00, 0x34, 0xC0]
  {
  }

  /** An xy point without SRID: order byte 1, type id 1 with no flags, then x and y. */
  lemma PlainPointBytes(p: Point)
    requires p.Point? && p.srid.None?
    ensures EncodePoint(AsEwkbPoint(p)) == [0x01, 0x01, 0x00, 0x00, 0x00] + F64Le(p.x) + F64Le(p.y)
  {
    assert WkbTypeId(PointType.Point, None) == 0;
    TypeIdOne();
  }

  /** The bytes `Point::new(10.0, -20.0, None).as_ewkb().write_ewkb` emits. */
  lemma PointTenMinusTwenty()
    ensures EncodePoint(AsEwkbPoint(Point.Point(Ten, MinusTwenty, None)))
            == [0x01, 0x01, 0x00, 0x00, 0x00,
                0x00, 0x00, 0x00, 0x00, 0x00, 0x00, 0x24, 0x40,
                0x00, 0x00, 0x00, 0x00, 0x00, 0x00, 0x34, 0xC0]
  {
    PlainPointBytes(Point.Point(Ten, MinusTwenty, None));
    TenBytes();
    MinusTwentyBytes();
  }

  /** The two characters of `s` at the place of byte `i` are that byte's digits. */
  predicate DigitsAt(b: Bytes, s: string, i: int)
    requires 0 <= i < |b| && |s| == 2 * |b|
  {
    s[2 * i] == HexDigits[b[i] / 16] && s[2 * i + 1] == HexDigits[b[i] % 16]
  }

  /** Hex text that has, at each byte's place, that byte's two digits is the hex rendering of the bytes. */
  lemma HexOf(b: Bytes, s: string)
    requires |s| == 2 * |b|
    requires forall i :: 0 <= i < |b| ==> DigitsAt(b, s, i)
    ensures ToHexEwkb(b) == s
  {
    var t := ToHexEwkb(b);
    forall j | 0 <= j < |s|
      ensures t[j] == s[j]
    {
      var k := j / 2;
      assert j == 2 * k || j == 2 * k + 1;
      assert DigitsAt(b, s, k);
      assert t[2 * k..2 * k + 2] == HexByte(b[k]);
      assert t[j] == HexByte(b[k])[j - 2 * k];
    }
  }

  lemma DigitsFirst(i: int)
    requires 0 <= i < 7
    ensures DigitsAt(PointTenMinusTwentyBytes, PointTenMinusTwentyHexText, i)
  {
    if i == 0 {
    } else if i == 1 {
    } else if i == 2 {
    } else if i == 3 {
    } else if i == 4 {
    } else if i == 5 {
    } else {
      assert i == 6;
    }
  }

  lemma DigitsMiddle(i: int)
    requires 7 <= i < 14
    ensures DigitsAt(PointTenMinusTwentyBytes, PointTenMinusTwentyHexText, i)
  {
    if i == 7 {
    } else if i == 8 {
    } else if i == 9 {
    } else if i == 10 {
    } else if i == 11 {
    } else if i == 12 {
    } else {
      assert i == 13;
    }
  }

  lemma DigitsLast(i: int)
    requires 14 <= i < 21
    ensures DigitsAt(PointTenMinusTwentyBytes, PointTenMinusTwentyHexText, i)
  {
    if i == 14 {
    } else if i == 15 {
    } else if i == 16 {
    } else if i == 17 {
    } else if i == 18 {
    } else if i == 19 {
    } else {
      assert i == 20;
    }
  }

  /** `Point::new(10.0, -20.0, None).as_ewkb().to_hex_ewkb()`, the string the writer's test expects. */
  lemma PointTenMinusTwentyHex()
    ensures ToHexEwkb(EncodePoint(AsEwkbPoint(Point.Point(Ten, MinusTwenty, None)))) == PointTenMinusTwentyHexText
  {
    PointTenMinusTwenty();
    forall i | 0 <= i < |PointTenMinusTwentyBytes|
      ensures DigitsAt(PointTenMinusTwentyBytes, PointTenMinusTwentyHexText, i)
    {
      if i < 7 {
        DigitsFirst(i);
      } else if i < 14 {
        DigitsMiddle(i);
      } else {
        DigitsLast(i);
      }
    }
    HexOf(PointTenMinusTwentyBytes, PointTenMinusTwentyHexText);
  }
}
