/**
 * What the container macros of src/ewkb/container/point.rs and
 * src/ewkb/geometry.rs share: a list of items with an optional SRID, the
 * `new` / `from_iter` constructors, the `for _ in 0..size` read loop and the
 * write loop over the items.
 */
module Containers {
  import opened Wrappers
  import opened Encoding

  /**
   * `LineStringT`, `MultiPointT`, `PolygonT`, `MultiLineStringT`,
   * `MultiPolygonT` and `GeometryCollectionT`: the items (`points`, `rings`,
   * `lines`, `polygons` or `geometries`) and the SRID.
   */
  datatype Container<T> = Container(items: seq<T>, srid: Option<i32>)

  /** `new()`: no items and no SRID. */
  function New<T>(): (c: Container<T>)
    ensures c.items == [] && c.srid.None?
  {
    Container([], None)
  }

  /** `from_iter`: starts from `new()` and pushes every item in iteration order. */
  method FromIter<T>(items: seq<T>) returns (c: Container<T>)
    ensures c.items == items && c.srid.None?
  {
    c := New();
    for i := 0 to |items|
      invariant c.items == items[..i] && c.srid.None?
    {
      c := c.(items := c.items + [items[i]]);
    }
    assert items[..|items|] == items;
  }

  // --- the read loop

  /** Every successful read by `dec` leaves a suffix of its input, at least `k` bytes shorter. */
  ghost predicate Advances<T>(dec: Bytes -> Read<T>, k: nat) {
    forall raw :: dec(raw).Ok? ==> IsSuffix(dec(raw).value.1, raw) && |dec(raw).value.1| + k <= |raw|
  }

  /**
   * `n` items read one after another by `dec`, the loop
   * `for _ in 0..size { items.push(dec(raw)?) }`: the first failure aborts
   * the whole read.
   */
  function DecodeMany<T>(raw: Bytes, n: nat, dec: Bytes -> Read<T>): (r: Read<seq<T>>)
    requires Advances(dec, 0)
    ensures r.Ok? ==> |r.value.0| == n && IsSuffix(r.value.1, raw)
    decreases n
  {
    if n == 0 then Ok(([], raw))
    else
      var (x, rest) :- dec(raw);
      var (xs, rest') :- DecodeMany(rest, n - 1, dec);
      SuffixTransitive(rest', rest, raw);
      Ok(([x] + xs, rest'))
  }

  /** The items already read, put in front of what the rest of the loop reads. */
  function Prepend<T>(acc: seq<T>, r: Read<seq<T>>): Read<seq<T>> {
    match r
    case Err(e) => Err(e)
    case Ok((xs, rest)) => Ok((acc + xs, rest))
  }

  lemma PrependNothing<T>(r: Read<seq<T>>)
    ensures Prepend([], r) == r
  {
    if r.Ok? {
      assert [] + r.value.0 == r.value.0;
    }
  }

  /** Moving one more item from the rest of the loop onto the items already read. */
  lemma PrependTwice<T>(acc: seq<T>, x: T, r: Read<seq<T>>)
    ensures Prepend(acc, Prepend([x], r)) == Prepend(acc + [x], r)
  {
    if r.Ok? {
      assert acc + ([x] + r.value.0) == (acc + [x]) + r.value.0;
    }
  }

  /** One step of the read loop: the first item, then the rest of the loop from where it ended. */
  lemma DecodeManyStep<T>(raw: Bytes, n: nat, dec: Bytes -> Read<T>)
    requires Advances(dec, 0)
    requires n > 0
    ensures dec(raw).Err? ==> DecodeMany(raw, n, dec) == Err(dec(raw).error)
    ensures dec(raw).Ok? ==>
      DecodeMany(raw, n, dec) == Prepend([dec(raw).value.0], DecodeMany(dec(raw).value.1, n - 1, dec))
  {
  }

  /**
   * `spec(raw, n)` is what the loop `for _ in 0..n { items.push(dec(raw)?) }`
   * returns: nothing when `n` is 0, otherwise the first item `dec` reads,
   * then the rest of the loop from where it ended, the first failure aborting.
   */
  ghost predicate Unrolls<T>(spec: (Bytes, nat) -> Read<seq<T>>, dec: Bytes -> Read<T>) {
    && (forall raw :: spec(raw, 0) == Ok(([], raw)))
    && (forall raw, n: nat {:trigger spec(raw, n), dec(raw)} :: n > 0 ==>
          spec(raw, n) == (if dec(raw).Err? then Err(dec(raw).error)
                           else Prepend([dec(raw).value.0], spec(dec(raw).value.1, n - 1))))
  }

  /** The read loop itself, pushing onto a vector as it goes, against any description of it. */
  method ReadLoop<T>(raw: Bytes, n: nat, dec: Bytes -> Read<T>, ghost spec: (Bytes, nat) -> Read<seq<T>>) returns (r: Read<seq<T>>)
    requires Unrolls(spec, dec)
    ensures r == spec(raw, n)
  {
    var items: seq<T> := [];
    var rest := raw;
    var i := 0;
    PrependNothing(spec(raw, n));
    while i < n
      invariant 0 <= i <= n
      invariant spec(raw, n) == Prepend(items, spec(rest, n - i))
    {
      var one := dec(rest);
      assert spec(rest, n - i) == (if one.Err? then Err(one.error) else Prepend([one.value.0], spec(one.value.1, n - i - 1)));
      if one.Err? {
        return Err(one.error);
      }
      var (x, rest') := one.value;
      PrependTwice(items, x, spec(rest', n - i - 1));
      items := items + [x];
      rest := rest';
      i := i + 1;
    }
    assert items + [] == items;
    return Ok((items, rest));
  }

  /** `DecodeMany` over `dec` as a function of the input and the count. */
  ghost function ManyOf<T>(dec: Bytes -> Read<T>): (Bytes, nat) -> Read<seq<T>>
    requires Advances(dec, 0)
  {
    (raw: Bytes, n: nat) => DecodeMany(raw, n, dec)
  }

  /** `DecodeMany` is the read loop over `dec`. */
  lemma ManyOfUnrolls<T>(dec: Bytes -> Read<T>)
    requires Advances(dec, 0)
    ensures Unrolls(ManyOf(dec), dec)
  {
    forall raw, n: nat | n > 0
      ensures ManyOf(dec)(raw, n) == (if dec(raw).Err? then Err(dec(raw).error)
                                      else Prepend([dec(raw).value.0], ManyOf(dec)(dec(raw).value.1, n - 1)))
    {
      DecodeManyStep(raw, n, dec);
    }
  }

  /** The read loop run on a reader of single items. */
  method ReadMany<T>(raw: Bytes, n: nat, dec: Bytes -> Read<T>) returns (r: Read<seq<T>>)
    requires Advances(dec, 0)
    ensures r == DecodeMany(raw, n, dec)
  {
    ManyOfUnrolls(dec);
    r := ReadLoop(raw, n, dec, ManyOf(dec));
  }

  /** If every read by `dec` takes at least `k` bytes, reading `n` items takes at least `n * k`. */
  lemma {:induction false} DecodeManyConsumes<T>(raw: Bytes, n: nat, dec: Bytes -> Read<T>, k: nat)
    requires Advances(dec, k)
    ensures DecodeMany(raw, n, dec).Ok? ==> |DecodeMany(raw, n, dec).value.1| + n * k <= |raw|
    decreases n
  {
    assert Advances(dec, 0);
    if n > 0 && dec(raw).Ok? {
      var rest := dec(raw).value.1;
      assert |rest| + k <= |raw|;
      DecodeManyConsumes(rest, n - 1, dec, k);
      assert (n - 1) * k + k == n * k;
    }
  }

  /** Every item the read loop returns is an item `dec` returned, so a property of all of those holds of all items. */
  lemma {:induction false} DecodeManyAll<T>(raw: Bytes, n: nat, dec: Bytes -> Read<T>, P: T -> bool)
    requires Advances(dec, 0)
    requires forall b :: dec(b).Ok? ==> P(dec(b).value.0)
    ensures DecodeMany(raw, n, dec).Ok? ==> forall x <- DecodeMany(raw, n, dec).value.0 :: P(x)
    decreases n
  {
    if n > 0 && dec(raw).Ok? {
      DecodeManyAll(dec(raw).value.1, n - 1, dec, P);
    }
  }

  // --- the write loop

  /** The items written one after another. */
  function Join<T>(xs: seq<T>, enc: T -> Bytes): Bytes {
    if |xs| == 0 then [] else enc(xs[0]) + Join(xs[1..], enc)
  }

  lemma {:induction false} JoinSnoc<T>(xs: seq<T>, x: T, enc: T -> Bytes)
    ensures Join(xs + [x], enc) == Join(xs, enc) + enc(x)
  {
    if |xs| == 0 {
      assert [x][1..] == [];
    } else {
      assert (xs + [x])[1..] == xs[1..] + [x];
      JoinSnoc(xs[1..], x, enc);
    }
  }

  /** The write loop `for geom in items { write(geom)? }`, appending to the output. */
  method WriteAll<T>(xs: seq<T>, enc: T -> Bytes) returns (out: Bytes)
    ensures out == Join(xs, enc)
  {
    out := [];
    for i := 0 to |xs|
      invariant out == Join(xs[..i], enc)
    {
      assert xs[..i + 1] == xs[..i] + [xs[i]];
      JoinSnoc(xs[..i], xs[i], enc);
      out := out + enc(xs[i]);
    }
    assert xs[..|xs|] == xs;
  }

  /**
   * Reading back what the write loop wrote: when `dec` reads each written
   * item `xs[i]` as `ys[i]` whatever follows it, the read loop gives `ys`
   * and leaves what follows the last item.
   */
  lemma {:induction false} DecodeManyOfJoin<T, U>(xs: seq<T>, ys: seq<U>, enc: T -> Bytes, dec: Bytes -> Read<U>, rest: Bytes)
    requires Advances(dec, 0)
    requires |xs| == |ys|
    requires forall i, r :: 0 <= i < |xs| ==> dec(enc(xs[i]) + r) == Ok((ys[i], r))
    ensures DecodeMany(Join(xs, enc) + rest, |xs|, dec) == Ok((ys, rest))
  {
    if |xs| > 0 {
      var tail := Join(xs[1..], enc) + rest;
      assert Join(xs, enc) + rest == enc(xs[0]) + tail;
      assert dec(enc(xs[0]) + tail) == Ok((ys[0], tail));
      forall i, r | 0 <= i < |xs[1..]|
        ensures dec(enc(xs[1..][i]) + r) == Ok((ys[1..][i], r))
      {
        assert dec(enc(xs[i + 1]) + r) == Ok((ys[i + 1], r));
      }
      DecodeManyOfJoin(xs[1..], ys[1..], enc, dec, rest);
      assert [ys[0]] + ys[1..] == ys;
    }
  }
}
