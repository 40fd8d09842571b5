# EWKB codec model

A Dafny model of the EWKB codec of the `postgis` Rust crate. EWKB is PostGIS's Extended Well-Known Binary: the Well-Known Binary format of clause 8 of OGC Simple Features Access Part 1, plus an SRID flag and an SRID field. The model covers:

- the fixed-width field readers (`read_u32`, `read_i32`, `read_f64`);
- the header: the order byte, the type id and its Z/M/SRID flag bits, and the optional SRID;
- the generic `read_ewkb` / `write_ewkb` framing and `to_hex_ewkb`;
- the four point shapes (`Point`, `PointZ`, `PointM`, `PointZM`);
- the point containers `LineStringT` and `MultiPointT`;
- `PolygonT`, `MultiLineStringT` and `MultiPolygonT`;
- the generic `GeometryT` with its dispatch on `type_id & 0xff`, `GeometryCollectionT`, and the `EwkbGeometry` write adapter.

A reader is the slice of bytes still to be read. Every decoder takes that slice and returns either an error or the value read together with the bytes it did not consume. This is the effect of `raw: &mut R` advancing through the stream. The writer is a function to a byte sequence. Coordinates are opaque 64-bit words (`F64`), because the codec only moves their bits.

The read and write loops of the containers are methods. Each is proved equal to a recursive specification function:

- `Containers.ReadLoop` is the loop `for _ in 0..size { items.push(read(raw)?) }` against any function that unrolls like it;
- `Containers.ReadMany`, `Geometries.ReadGeometries` and `Geometries.ReadCollectionBody` instantiate that loop;
- `Containers.WriteAll` and `Geometries.WriteCollectionBody` are the write loops;
- `Containers.FromIter` is the push loop of `from_iter`.

The properties proved about the specification functions are:

- each field reader consumes exactly its width, or fails with end-of-input;
- big-endian reads are reversed little-endian reads;
- `read_i32` is two's complement of the same bytes;
- the type id's flag bits give back the point shape and SRID presence;
- round trips for every geometry kind: what `write_ewkb` writes, `read_ewkb` reads back, with the SRID normalisation the readers apply. Inline items take the container's SRID; items with their own header come back without one;
- the hex rendering is injective;
- the tests' `POINT (10 -20)` vector, both as bytes and as hex text;
- the tests' `SRID=4326;LINESTRING (10 -20, 0 -0.5)` vector as bytes, and the failure to read the same line without SRID as a polygon.

Modules, one per source file:

| file | module | source |
|---|---|---|
| `wrappers.dfy` | `Wrappers` | `Option` |
| `encoding.dfy` | `Encoding` | `src/ewkb/encoding.rs`, and the byte words the writer emits |
| `ewkb.dfy` | `Ewkb` | `src/ewkb.rs` |
| `point.dfy` | `Points` | `src/ewkb/point.rs` |
| `containers.dfy` | `Containers` | what the container macros share: `new`, `from_iter`, the read and write loops |
| `container_point.dfy` | `PointContainers` | `src/ewkb/container/point.rs` |
| `geometry.dfy` | `Geometries` | `src/ewkb/geometry.rs` |
| `vectors.dfy` | `Vectors` | the point vector of the tests in `src/ewkb.rs` |
| `line_vectors.dfy` | `LineVectors` | the line vectors of the tests in `src/ewkb.rs` |

The generic point parameter `P` of the Rust containers becomes an explicit `PointType` argument. `P::read_ewkb_body` becomes `DecodePointBody(..., pointType)`, and `P::point_type()` becomes `pointType`.

## Model

| member | source | states |
|---|---|---|
| Encoding.ReadU32 | src/ewkb/encoding.rs:5-11 | succeeds exactly when 4 bytes remain and then consumes exactly those 4; otherwise fails with end-of-input |
| Encoding.ReadI32 | src/ewkb/encoding.rs:13-19 | succeeds exactly when 4 bytes remain and consumes exactly 4; otherwise end-of-input |
| Encoding.ReadF64 | src/ewkb/encoding.rs:21-27 | succeeds exactly when 8 bytes remain and consumes exactly 8; otherwise end-of-input |
| Encoding.ReadU32Takes | src/ewkb/encoding.rs:5-11 | the value read, written least-significant byte first, is the 4 bytes taken, as they are for little-endian and reversed for big-endian |
| Encoding.ReadI32Takes | src/ewkb/encoding.rs:13-19 | the same for `i32` (through its two's-complement bits) |
| Encoding.ReadF64Takes | src/ewkb/encoding.rs:21-27 | the same for the 8 bytes of an `f64` |
| Encoding.BigEndianIsReversedLittleEndian | src/ewkb/encoding.rs:5-27 | for any input of at least 4 bytes, a big-endian read of a `u32` or `i32` equals the little-endian read of the same bytes reversed; with at least 8 bytes, the same holds for an `f64` |
| Encoding.ReadI32IsTwosComplement | src/ewkb/encoding.rs:13-19 | `read_i32` of four bytes is their unsigned value, least significant first little-endian and most significant first big-endian, less 2^32 when the sign byte (the last little-endian, the first big-endian) is 0x80 or more |
| Encoding.TwosComplementRoundTrip | src/ewkb/encoding.rs:13-19 | the conversions `u32 as i32` and `i32 as u32` are mutually inverse |
| Encoding.LeValueOfBytes | src/ewkb/encoding.rs:5-27 | a value below 256^k written as k little-endian bytes is read back as itself |
| Encoding.LeBytesOfValue | src/ewkb/encoding.rs:5-27 | k bytes read as a little-endian value and written back give the same bytes |
| Encoding.BeValueIsReversedLeValue | src/ewkb/encoding.rs:5-27 | the big-endian value of bytes is the little-endian value of the reversed bytes |
| Encoding.FieldValueIsLittleEndian | src/ewkb/encoding.rs:5-27 | a field in either byte order is the little-endian value of the bytes put in little-endian order |
| Encoding.ReadU32OfWritten | src/ewkb/encoding.rs:5-11 | a `u32` written little-endian is read back little-endian as itself, leaving what follows |
| Encoding.ReadI32OfWritten | src/ewkb/encoding.rs:13-19 | an `i32` written little-endian is read back as itself, leaving what follows |
| Encoding.ReadF64OfWritten | src/ewkb/encoding.rs:21-27 | an `f64` word written little-endian is read back as itself, leaving what follows |
| Encoding.ReadCountOfWritten | src/ewkb/container/point.rs:167 | a count `len() as u32` below 2^32 is read back as the count |
| Ewkb.WkbTypeId | src/ewkb.rs:54-66 | the SRID bit is set iff an SRID is given, the Z bit iff the shape is PointZ or PointZM, the M bit iff PointM or PointZM, and no bit below 0x20000000 is set |
| Ewkb.CodedTypeId | src/ewkb/container/point.rs:162-164 | the type code OR-ed with `wkb_type_id`: `type_id & 0xff` gives back the code, and `has_z`, `has_m` and the SRID test give back the shape's flags and SRID presence |
| Ewkb.ReadHeader | src/ewkb.rs:28-36 | fails on fewer than 5 bytes and succeeds on 9 or more; order byte 0 means big-endian, anything else little-endian; the type id is bytes 1..5 in that order; an SRID is read from bytes 5..9 exactly when the SRID bit is set; end-of-input is the only failure |
| Ewkb.ReadHeaderSucceeds | src/ewkb.rs:28-36 | a header reads exactly when there are at least 5 bytes and, if the type id in bytes 1..5 has the SRID bit, at least 9: without that bit five bytes are a whole header |
| Ewkb.WriteEwkb | src/ewkb.rs:70-79 | the output is 5 bytes, plus 4 if there is an SRID, plus the body |
| Ewkb.WriteEwkbLayout | src/ewkb.rs:70-79 | the output is 0x01, then the type id little-endian, then the SRID little-endian when present, then the body |
| Ewkb.WriteEwkbThenMore | src/ewkb.rs:70-79 | whatever is written after a geometry follows its body |
| Ewkb.ReadHeaderOfWritten | src/ewkb.rs:28-36 | the header `write_ewkb` emits is read back as little-endian with the same type id and SRID, leaving the body |
| Ewkb.ReadEwkbOfWritten | src/ewkb.rs:28-38 | `read_ewkb` of written bytes passes the body reader little-endian order, the written type id, the written SRID and the body |
| Ewkb.HexFold | src/ewkb.rs:86-88 | the fold appends exactly two characters per byte, in order, each pair the `{:02X}` rendering of its byte |
| Ewkb.ToHexEwkb | src/ewkb.rs:83-90 | the text is twice as long as the bytes; characters 2i and 2i+1 are the uppercase hex digits of byte i; every character is a hex digit |
| Ewkb.ToHexEwkbInjective | src/ewkb.rs:83-90 | equal hex texts come from equal byte sequences |
| Points.OptZ | src/ewkb/point.rs:114-124 | `opt_z` is `Some` exactly for PointZ and PointZM, and then holds the stored z |
| Points.OptM | src/ewkb/point.rs:147-157 | `opt_m` is `Some` exactly for PointM and PointZM, and then holds the stored m |
| Points.NewFromOptVals | src/ewkb/point.rs:59-171 | the point has the requested shape, x, y and SRID; a shape with z (or m) gets the given value, or 0.0 when none is given; a shape without z (or m) drops it |
| Points.NewFromOwnVals | src/ewkb/point.rs:59-105 | rebuilding a point from its own x, y, `opt_z` and `opt_m` gives the point back with the SRID passed in |
| Points.ReadOptF64 | src/ewkb/point.rs:209-218 | when the flag is set, reads one `f64` (failing if fewer than 8 bytes remain); otherwise reads nothing and gives `None` |
| Points.DecodePointBody | src/ewkb/point.rs:201-220 | succeeds exactly when 16, 24 or 32 bytes remain, as `has_z` and `has_m` of the type id require, and consumes exactly that many; the point has the reader's shape and the SRID passed in; otherwise end-of-input |
| Points.PointBodyLayout | src/ewkb/point.rs:201-220 | x is bytes 0..8 and y is bytes 8..16; z is bytes 16..24 when `has_z`; m follows; a shape whose z (or m) is absent from the input gets 0.0 |
| Points.DecodePoint | src/ewkb.rs:28-38 | a successful read had a valid header; the point has the reader's shape and the header's SRID; at least 21 bytes were consumed |
| Points.AsEwkbPoint | src/ewkb/point.rs:223-231 | the adapter holds the point, its own SRID and its own shape |
| Points.PointTypeId | src/ewkb.rs:54-66 | kind 0x01, with the flags of the adapter's shape and SRID |
| Points.EncodePointBody | src/ewkb.rs:112-127 | the body is 16 bytes, plus 8 when the point has z, plus 8 when it has m |
| Points.ReadOptF64OfWritten | src/ewkb/point.rs:209-218 | an optional coordinate written when present is read back under the matching flag |
| Points.ReadPointBodyOfWritten | src/ewkb/point.rs:201-220 | a written body read under flags matching the point's shape gives the reader's `new_from_opt_vals` of the written coordinates with the SRID passed in, leaving what follows |
| Points.ReadPointOfWritten | src/ewkb.rs:28-38 | a written point read as any shape gives that shape's `new_from_opt_vals` of its coordinates with the adapter's SRID |
| Points.ReadPointAsShape | src/ewkb.rs:230-238 | as above for `as_ewkb`; in particular a PointZ payload read as `Point` keeps only x, y and the SRID |
| Points.PointRoundTrip | src/ewkb.rs:221-249 | writing a point and reading it as its own shape gives the same point |
| Points.PointBodyReader | src/ewkb/point.rs:201-220 | the body reader always consumes at least 16 bytes and leaves a suffix |
| Points.PointReader | src/ewkb.rs:28-38 | a complete point read consumes at least 21 bytes and leaves a suffix |
| Containers.New | src/ewkb/container/point.rs:29-36 | `new()` has no items and no SRID |
| Containers.FromIter | src/ewkb/container/point.rs:38-53 | the push loop keeps the items in input order and leaves no SRID |
| Containers.DecodeMany | src/ewkb/container/point.rs:83-87 | when the loop succeeds it returns exactly `size` items and leaves a suffix of the input |
| Containers.DecodeManyStep | src/ewkb/container/point.rs:85-87 | a failing first item aborts the whole read with its error; otherwise the first item comes before the rest of the loop |
| Containers.ManyOfUnrolls | src/ewkb/container/point.rs:85-87 | the recursive reading of `n` items unrolls as the loop does |
| Containers.ReadLoop | src/ewkb/container/point.rs:83-91 | the loop returns exactly what any function that unrolls as the loop does returns, error or items and rest |
| Containers.ReadMany | src/ewkb/container/point.rs:109-113 | the loop over a reader of single items returns `DecodeMany` |
| Containers.DecodeManyConsumes | src/ewkb/container/point.rs:85-87 | if every item read takes at least k bytes, n items take at least n*k |
| Containers.DecodeManyAll | src/ewkb/container/point.rs:111-113 | every item the loop returns was returned by the item reader, so shares what holds of all of those |
| Containers.JoinSnoc | src/ewkb/container/point.rs:168-175 | writing one more item appends its bytes |
| Containers.WriteAll | src/ewkb/container/point.rs:168-175 | the write loop appends each item's bytes, in order |
| Containers.DecodeManyOfJoin | src/ewkb/container/point.rs:166-177 | items written one after another are read back by the loop as the item reader reads each, leaving what follows |
| PointContainers.DecodeLineStringBody | src/ewkb/container/point.rs:77-92 | reads a count, then exactly that many points with the line's SRID and shape; keeps the SRID passed in; consumes at least 4 + 16 per point |
| PointContainers.DecodeMultiPointBody | src/ewkb/container/point.rs:103-118 | reads a count, then exactly that many complete points of the reader's shape; keeps the outer SRID; consumes at least 4 + 21 per point |
| PointContainers.DecodeLineString | src/ewkb.rs:28-38 | a successful read had a valid header whose SRID the line and every point carry |
| PointContainers.DecodeMultiPoint | src/ewkb.rs:28-38 | a successful read had a valid header whose SRID the multipoint carries; every point has the reader's shape |
| PointContainers.AsEwkbContainer | src/ewkb/container/point.rs:186-192 | the adapter of a line or a multipoint holds the container, its SRID and `P::point_type()` |
| PointContainers.LineStringTypeId | src/ewkb/container/point.rs:162-164 | kind 0x02 with the adapter's flags |
| PointContainers.MultiPointTypeId | src/ewkb/container/point.rs:162-164 | kind 0x04 with the adapter's flags |
| PointContainers.ReadLineStringBodyOfWritten | src/ewkb/container/point.rs:166-177 | a written line body (count, then bare point bodies) is read back with every point taking the SRID the reader passes in |
| PointContainers.ReadLineStringOfWritten | src/ewkb.rs:260-264 | a written line is read back with the adapter's SRID on the line and on every point |
| PointContainers.LineStringRoundTrip | src/ewkb.rs:151-154 | `as_ewkb` then `read_ewkb` gives the line with its own SRID pushed onto every point |
| PointContainers.LineStringExactRoundTrip | src/ewkb.rs:260-264 | a line whose points already carry the line's SRID comes back exactly |
| PointContainers.AllWithOwnSrid | src/ewkb.rs:260-264 | giving points the SRID they already have changes nothing |
| PointContainers.ReadMultiPointBodyOfWritten | src/ewkb/container/point.rs:103-118 | a written multipoint body (count, then complete points with no SRID) is read back with every point without SRID and the container with the SRID passed in |
| PointContainers.ReadMultiPointOfWritten | src/ewkb.rs:280-285 | a written multipoint is read back with the adapter's SRID on the container and none on the points |
| PointContainers.MultiPointRoundTrip | src/ewkb.rs:280-285 | `as_ewkb` then `read_ewkb` keeps the top-level SRID and clears the points' |
| PointContainers.LineStringBodyReader | src/ewkb/container/point.rs:77-92 | a line body read consumes at least 4 bytes and leaves a suffix |
| PointContainers.LineStringReader | src/ewkb.rs:28-38 | a complete line read consumes at least 9 bytes and leaves a suffix |
| Geometries.DecodePolygonBody | src/ewkb/geometry.rs:64-79 | reads a count, then exactly that many rings as bare line bodies; the polygon, every ring and every point carry the SRID passed in, and every point has the reader's shape; consumes at least 4 + 4 per ring |
| Geometries.DecodeMultiLineStringBody | src/ewkb/geometry.rs:90-105 | reads a count, then exactly that many complete lines; keeps the outer SRID; within each line every point carries that line's SRID and has the reader's shape |
| Geometries.DecodeMultiPolygonBody | src/ewkb/geometry.rs:90-105 | reads a count, then exactly that many complete polygons; keeps the outer SRID; within each polygon every ring and every point carry that polygon's SRID and every point has the reader's shape |
| Geometries.DecodePolygon | src/ewkb.rs:28-38 | a successful read had a valid header whose SRID the polygon, its rings and their points carry; every point has the reader's shape |
| Geometries.DecodeMultiLineString | src/ewkb.rs:28-38 | a successful read had a valid header whose SRID the container carries; every point carries its own line's SRID and has the reader's shape |
| Geometries.DecodeMultiPolygon | src/ewkb.rs:28-38 | a successful read had a valid header whose SRID the container carries; every ring and point carries its own polygon's SRID and every point has the reader's shape |
| Geometries.PolygonReader | src/ewkb/geometry.rs:99 | a complete polygon read consumes at least 9 bytes and leaves a suffix |
| Geometries.EmptyLineStringReadsAsPolygon | src/ewkb.rs:28-38 | the concrete readers never check the kind: an empty linestring's bytes are accepted by the polygon reader as an empty polygon with the line's SRID |
| Geometries.DecodeGeometry | src/ewkb/geometry.rs:420-454 | a successful read consumes at least the 5 header bytes |
| Geometries.DecodeGeometryKind | src/ewkb/geometry.rs:420-454 | a successful read had a valid header, and the variant read is the one `type_id & 0xff` names; any code outside 1..7 is an unsupported-type error |
| Geometries.DecodeGeometryShape | src/ewkb/geometry.rs:420-454 | from any input, a successful read had a valid header; every point at any depth has the reader's point type; the geometry carries the header's SRID, except a collection, which has none |
| Geometries.DecodeGeometriesShape | src/ewkb/geometry.rs:746-780 | every element the collection loop reads has the reader's point type at any depth |
| Geometries.DecodeGeometryBody | src/ewkb/geometry.rs:430-451 | the variant is the one the kind code names; any code outside 1..7 is an unsupported-type error |
| Geometries.DecodeCollectionBody | src/ewkb/geometry.rs:738-782 | reads a count, then exactly that many elements; the collection has no SRID whatever SRID was passed in |
| Geometries.DecodeGeometries | src/ewkb/geometry.rs:746-780 | a successful element loop returns exactly `size` geometries |
| Geometries.DecodeGeometriesStep | src/ewkb/geometry.rs:746-780 | a failing element aborts the collection read; otherwise the first element comes before the rest of the loop |
| Geometries.GeometriesOfUnrolls | src/ewkb/geometry.rs:746-780 | the element loop unrolls as the read loop over the generic geometry reader does |
| Geometries.GeometriesOfStep | src/ewkb/geometry.rs:746-780 | one step of the element loop |
| Geometries.ReadGeometries | src/ewkb/geometry.rs:746-780 | the element-pushing loop returns what `DecodeGeometries` describes |
| Geometries.ReadCollectionBody | src/ewkb/geometry.rs:738-782 | the collection body read with that loop returns what `DecodeCollectionBody` describes |
| Geometries.GeometryBodyUnsupported | src/ewkb/geometry.rs:455-462 | `GeometryT::read_ewkb_body` always fails |
| Geometries.PolygonTypeId | src/ewkb/geometry.rs:161-163 | kind 0x03 with the adapter's flags |
| Geometries.MultiLineStringTypeId | src/ewkb/geometry.rs:161-163 | kind 0x05 with the adapter's flags |
| Geometries.MultiPolygonTypeId | src/ewkb/geometry.rs:266-268 | kind 0x06 with the adapter's flags |
| Geometries.CollectionTypeId | src/ewkb/geometry.rs:927-929 | kind 0x07 with the adapter's flags |
| Geometries.EncodeElementsIsJoin | src/ewkb/geometry.rs:934-993 | the collection's elements are written one after another, each by the writer of its kind with no SRID and the collection's point type |
| Geometries.WriteCollectionBody | src/ewkb/geometry.rs:931-995 | the write loop emits the count, then every element in order |
| Geometries.EwkbGeometry.TypeId | src/ewkb/geometry.rs:619-629 | the delegated type id has the SRID bit exactly when the delegated `opt_srid` is `Some` |
| Geometries.AsEwkbGeometry | src/ewkb/geometry.rs:677-688 | the adapter carries the geometry's SRID and a type id whose kind is the geometry's code |
| Geometries.EwkbGeometryDelegates | src/ewkb/geometry.rs:607-641 | `write_ewkb` of the generic adapter writes exactly what the adapter of the wrapped kind writes |
| Geometries.ReadPolygonBodyOfWritten | src/ewkb/geometry.rs:64-79 | a written polygon body is read back with every ring and point taking the SRID passed in |
| Geometries.ReadPolygonOfWritten | src/ewkb.rs:270-275 | a written polygon is read back with the adapter's SRID on the polygon, its rings and their points |
| Geometries.ReadMultiLineStringBodyOfWritten | src/ewkb/geometry.rs:90-105 | a written multilinestring body is read back with lines and points without SRID |
| Geometries.ReadMultiLineStringOfWritten | src/ewkb.rs:290-297 | a written multilinestring keeps the top-level SRID; the nested SRIDs become none |
| Geometries.ReadMultiPolygonBodyOfWritten | src/ewkb/geometry.rs:90-105 | a written multipolygon body is read back with polygons, rings and points without SRID |
| Geometries.ReadMultiPolygonOfWritten | src/ewkb.rs:302-311 | a written multipolygon keeps the top-level SRID; every nested polygon, ring and point SRID becomes none |
| Geometries.DecodeGeometryOfWritten | src/ewkb/geometry.rs:420-429 | the generic reader of written bytes dispatches on the written type id with the written SRID |
| Geometries.ReadPointAsGeometry | src/ewkb/geometry.rs:431 | written point bytes are read by the generic reader as a `Point` variant |
| Geometries.ReadLineStringAsGeometry | src/ewkb/geometry.rs:432-434 | written line bytes are read as a `LineString` variant with the SRID normalised as the line reader does |
| Geometries.ReadPolygonAsGeometry | src/ewkb/geometry.rs:435 | written polygon bytes are read as a `Polygon` variant |
| Geometries.ReadMultiPointAsGeometry | src/ewkb/geometry.rs:436 | written multipoint bytes are read as a `MultiPoint` variant |
| Geometries.ReadMultiLineStringAsGeometry | src/ewkb/geometry.rs:437-439 | written multilinestring bytes are read as a `MultiLineString` variant |
| Geometries.ReadMultiPolygonAsGeometry | src/ewkb/geometry.rs:440-442 | written multipolygon bytes are read as a `MultiPolygon` variant |
| Geometries.ReadCollectionAsGeometry | src/ewkb/geometry.rs:443-445 | written collection bytes are read as a `GeometryCollection` variant with no SRID, each element re-read |
| Geometries.ReadGeometryOfWritten | src/ewkb/geometry.rs:420-454 | any conforming geometry written under any SRID is read back by the generic reader as the geometry with that SRID normalised as its kind's reader does, leaving what follows |
| Geometries.ReadCollectionBodyOfWritten | src/ewkb/geometry.rs:738-782 | a written collection body is read back element by element; the collection has no SRID |
| Geometries.ReadElementsOfWritten | src/ewkb/geometry.rs:746-780 | the elements written one after another are read back one by one, in order |
| Geometries.GeometryRoundTrip | src/ewkb/geometry.rs:644-689 | `as_ewkb` then `read_ewkb` of any conforming geometry gives `Reread(g, g.Srid())`: every kind but a collection keeps its top-level SRID; a collection comes back without one, as `GeometryCollectionT::read_ewkb_body` sets none; nested SRIDs are normalised as `Reread` says |
| Vectors.PlainPointBytes | src/ewkb.rs:70-79 | an xy point without SRID is written as 0x01, type id 1 little-endian, x, y |
| Vectors.PointTenMinusTwenty | src/ewkb.rs:223-224 | `Point::new(10.0, -20.0, None)` is written as the 21 bytes the read test expects |
| Vectors.HexOf | src/ewkb.rs:83-90 | a text with the right two digits at every byte's place is the hex rendering of the bytes |
| Vectors.PointTenMinusTwentyHex | src/ewkb.rs:113-115 | its hex rendering is `0101000000000000000000244000000000000034C0` |
| LineVectors.SridLineTenMinusTwenty | src/ewkb.rs:147-149 | `SRID=4326;LINESTRING (10 -20, 0 -0.5)` is written as the bytes of `0102000020E610000002000000...E0BF`: type id 0x2000_0002, SRID 4326, count 2, then the coordinates; the points' own SRIDs are not written |
| LineVectors.LineStringReadAsPolygon | src/ewkb.rs:529-536 | reading the bytes of `LINESTRING (10 -20, 0 -0.5)` as `PolygonT<Point>` fails with an unexpected end of input: the x of the first point is taken for an empty ring and a ring of 0x4024_0000 points |

## Left out

- `src/postgis.rs`, the database binding (`ToSql` / `FromSql`), is not part of this model. It is glue around the codec and needs a live database.
- IEEE-754 semantics: coordinates are opaque 64-bit words, and 0.0 is the word 0. Nothing in the codec computes with them.
- The `EwkbPoint` adapter and its body writer are not part of this model's source files. `EncodePointBody` writes x, y, then z and m when the point has them, each little-endian, as the writer tests fix.
- Error messages: every failure is one of three error values (end-of-input, unsupported type id, generic body unsupported). `GeometryT::read_ewkb_body` panics in the source; here it returns an error.
- The output sink is an infallible byte sequence. The ignored result of the SRID write in `write_ewkb` therefore never matters.
- `fmt::Debug`, the serde derives, `as_type` and the `AsEwkb*` associated types are left out. `as_type` only re-labels a borrowed variant; iterators are sequences. `FromIterator`'s capacity reservation only affects allocation. `hex_to_vec` is test-only.
- The `len() as u32` count is written modulo 2^32 (`CountLe`). A container of 2^32 or more items is therefore written with a wrapped count that disagrees with its items, and the round-trip lemmas require fewer than 2^32 items.
- The concrete readers (`DecodePolygon` and the rest) never check the kind in the header, as in the source. `EmptyLineStringReadsAsPolygon` states this for an empty line and `LineStringReadAsPolygon` for the two-point line of the tests, where the read fails on the body's bytes rather than on the kind.
- DecodeGeometry: its own contract states only that a read consumes at least the header. The dispatch on the kind code is stated by `DecodeGeometryKind`, the shape of every point and the SRID of any geometry read by `DecodeGeometryShape`, and the full result of reading written bytes by `ReadGeometryOfWritten`. That the rest is a suffix of the input is not stated for the generic and collection readers.
- TWKB is a different format and is not part of this model.
