/** The image container `AstroImage` of `astromy/image.py`: its geometry
    (`shape`, `pixcenter`), its `footprint`, the in-place `mask_blank`, and
    the algorithm guard of `rotate`. */
module Image {
  import opened Wrappers
  import opened Stats
  import opened Histogram

  /** A pixel of a float image: a number, or NaN. */
  datatype Pixel = NaN | Val(v: real)

  /** numpy's `==` on floats: NaN equals nothing, not even NaN. */
  predicate NumEq(p: Pixel, q: Pixel) {
    p.Val? && q.Val? && p.v == q.v
  }

  /** A FITS header card value. */
  datatype Card = IntCard(i: int) | RealCard(r: real) | TextCard(s: string)

  type Header = map<string, Card>

  /** The part of the world coordinate system that `shape` consults: the
      attributes NAXIS1 (width) and NAXIS2 (height), when the WCS object
      has them. The WCS object comes from the library's `WCS(header)`. */
  datatype Wcs = Wcs(naxis1: Option<int>, naxis2: Option<int>)

  /** The centre of a grid of the given width and height, in 0-based pixel
      coordinates: as far from the first pixel as from the last, on both
      axes. */
  function Center(shape: (int, int)): (c: (real, real))
    ensures c.0 == (shape.0 - 1) as real - c.0
    ensures c.1 == (shape.1 - 1) as real - c.1
  {
    ((shape.0 - 1) as real / 2.0, (shape.1 - 1) as real / 2.0)
  }

  /** A 10 by 10 image has its centre at (4.5, 4.5). */
  lemma CenterTenByTen()
    ensures Center((10, 10)) == (4.5, 4.5)
  {
  }

  /** A pixel of the footprint: 1.0 where there is data, 0.0 where the
      image is NaN. */
  function FootprintPixel(p: Pixel): (r: Pixel)
    ensures r == Val(1.0) || r == Val(0.0)
    ensures r == Val(1.0) <==> !p.NaN?
  {
    if p.NaN? then Val(0.0) else Val(1.0)
  }

  /** A pixel after `mask_blank`'s loop over the selected values `modes`:
      NaN if it was NaN or numerically equal to one of them, else as it
      was. */
  function MaskWith(p: Pixel, modes: seq<Pixel>): (r: Pixel)
    ensures r.NaN? <==> p.NaN? || exists k :: 0 <= k < |modes| && NumEq(p, modes[k])
    ensures r.Val? ==> r == p
  {
    if p.Val? && p in modes then NaN else p
  }

  /** Masking with one more value is masking with it after the others. */
  lemma MaskWithStep(p: Pixel, modes: seq<Pixel>, k: int)
    requires 0 <= k < |modes|
    ensures MaskWith(p, modes[..k + 1])
         == (if NumEq(MaskWith(p, modes[..k]), modes[k]) then NaN else MaskWith(p, modes[..k]))
  {
    assert modes[..k + 1] == modes[..k] + [modes[k]];
  }

  /** What `mask_blank` does to one pixel of the image `s`: it becomes NaN
      exactly when it was NaN or its value's count exceeds the critical
      count, and is otherwise unchanged. */
  lemma MaskBlankPixel(s: seq<Pixel>, t: real, p: Pixel)
    requires p in s
    ensures MaskWith(p, Modes(s, t)).NaN?
        <==> p.NaN? || ExceedsCritical(Count(s, p) as real, Counts(s), t)
    ensures MaskWith(p, Modes(s, t)).Val? ==> MaskWith(p, Modes(s, t)) == p
  {
  }

  /** A small image in which one value is masked: counts 2 and 1 have mean
      1.5 and standard deviation 0.5, so at threshold -3 the critical count
      is 1.0 and only the value seen twice exceeds it. */
  lemma MaskBlankExample()
    ensures Modes([Val(0.0), Val(0.0), Val(7.0)], -3.0) == [Val(0.0)]
  {
    var s := [Val(0.0), Val(0.0), Val(7.0)];
    assert s[1..] == [Val(0.0), Val(7.0)];
    assert Without(s[1..], Val(0.0)) == [Val(7.0)];
    assert Without([Val(7.0)][1..], Val(7.0)) == [];
    assert Distinct(s) == [Val(0.0), Val(7.0)];
    assert Count(s, Val(0.0)) == 2 && Count(s, Val(7.0)) == 1;
    var cs := Counts(s);
    assert cs == [2.0, 1.0];
    assert cs[1..] == [1.0] && cs[1..][1..] == [];
    assert Sum(cs[1..]) == 1.0;
    assert Sum(cs) == 3.0;
    assert Mean(cs) == 1.5;
    var ds := Deviations(cs, 1.5);
    assert ds == [0.5, -0.5];
    assert ds[1..] == [-0.5] && ds[1..][1..] == [];
    assert SumSq(ds[1..]) == 0.25;
    assert SumSq(ds) == 0.5;
    assert Variance(cs) == 0.25;
    assert ExceedsCritical(2.0, cs, -3.0);
    assert !ExceedsCritical(1.0, cs, -3.0);
  }

  datatype Algorithm = Interpolation | Exact | Adaptive

  /** The name `rotate` accepts for each resampling algorithm. */
  function AlgorithmName(a: Algorithm): string {
    match a
    case Interpolation => "interpolation"
    case Exact => "exact"
    case Adaptive => "adaptive"
  }

  /** The algorithm of a name, if `rotate` supports it. */
  function AlgorithmNamed(name: string): (r: Option<Algorithm>)
    ensures r.Some? ==> AlgorithmName(r.value) == name
    ensures r.None? <==> name != "interpolation" && name != "exact" && name != "adaptive"
  {
    if name == "interpolation" then Some(Interpolation)
    else if name == "exact" then Some(Exact)
    else if name == "adaptive" then Some(Adaptive)
    else None
  }

  /** Every algorithm is known by its name. */
  lemma AlgorithmNameRoundTrip(a: Algorithm)
    ensures AlgorithmNamed(AlgorithmName(a)) == Some(a)
  {
  }

  datatype RotateError = ValueError(message: string)

  /** What `rotate` hands to the resampling: the algorithm, the angle in
      degrees and the output shape `shape_out`. */
  datatype Reprojection = Reprojection(algorithm: Algorithm, angle: real, shapeOut: (int, int))

  /** The dispatch of `rotate`: one of the three resampling algorithms by
      name, or `ValueError('Algorithm not supported')`. */
  function RotatePlan(angle: real, algorithm: string, shapeOut: (int, int)): (r: Result<Reprojection, RotateError>)
    ensures r.Failure? <==> algorithm != "interpolation" && algorithm != "exact" && algorithm != "adaptive"
    ensures r.Failure? ==> r.error == ValueError("Algorithm not supported")
    ensures r.Success? ==>
      && AlgorithmName(r.value.algorithm) == algorithm
      && r.value.angle == angle && r.value.shapeOut == shapeOut
  {
    match AlgorithmNamed(algorithm)
    case Some(a) => Success(Reprojection(a, angle, shapeOut))
    case None => Failure(ValueError("Algorithm not supported"))
  }

  /** `shape_out=np.array(self.shape)` as written: (width, height). */
  function ShapeOutAsWritten(shape: (int, int)): (int, int) {
    shape
  }

  /** The `shape_out` the resampling expects, numpy's (rows, columns):
      (height, width). */
  function ShapeOut(shape: (int, int)): (so: (int, int))
    ensures so.0 == shape.1 && so.1 == shape.0
  {
    (shape.1, shape.0)
  }

  class AstroImage {
    var data: array2<Pixel>
    var header: Header
    var wcs: Wcs

    /** `AstroImage(data, header)`, with `wcs` the result of the library's
        `WCS(header)`: it is taken once, here, and not again when the
        header changes later. */
    constructor (data: array2<Pixel>, header: Header, wcs: Wcs)
      ensures this.data == data && this.header == header && this.wcs == wcs
    {
      this.data := data;
      this.header := header;
      this.wcs := wcs;
    }

    /** `shape`: (width, height), taken from the WCS axis lengths where it
        has them and from the array's columns and rows where it does not. */
    function Shape(): (wh: (int, int))
      reads this
      ensures wcs.naxis1.Some? ==> wh.0 == wcs.naxis1.value
      ensures wcs.naxis1.None? ==> wh.0 == data.Length1
      ensures wcs.naxis2.Some? ==> wh.1 == wcs.naxis2.value
      ensures wcs.naxis2.None? ==> wh.1 == data.Length0
    {
      (if wcs.naxis1.Some? then wcs.naxis1.value else data.Length1,
       if wcs.naxis2.Some? then wcs.naxis2.value else data.Length0)
    }

    /** `pixcenter`: the centre of the image's shape. */
    function PixCenter(): (c: (real, real))
      reads this
      ensures c == Center(Shape())
    {
      Center(Shape())
    }

    /** The pixels in row-major order, as `np.unique` flattens them: each
        pixel once, row after row. */
    function Pixels(): (ps: seq<Pixel>)
      reads this, data
      ensures |ps| == data.Length0 * data.Length1
      ensures forall i, j :: 0 <= i < data.Length0 && 0 <= j < data.Length1 ==>
        HoldsAt(ps, i * data.Length1 + j, data[i, j])
    {
      RowOffsetIsProduct(data.Length0, data.Length1);
      RowOffsetsAreProducts(data.Length1);
      RowsFrom(0)
    }

    /** The rows from `i` on, concatenated. */
    function RowsFrom(i: nat): (ps: seq<Pixel>)
      reads this, data
      requires i <= data.Length0
      ensures Flattened(data, i, ps)
      decreases data.Length0 - i
    {
      if i == data.Length0 then []
      else
        var row, rest := Row(i), RowsFrom(i + 1);
        StackRow(data, i, row, rest);
        row + rest
    }

    function Row(i: nat): (row: seq<Pixel>)
      reads this, data
      requires i < data.Length0
      ensures |row| == data.Length1 && forall j :: 0 <= j < data.Length1 ==> row[j] == data[i, j]
    {
      var a := data;
      seq(a.Length1, j requires 0 <= j < a.Length1 && i < a.Length0 reads a => a[i, j])
    }

    /** `footprint`: a new image over the same header whose pixels are 1.0
        where this image has data and 0.0 where it is NaN. */
    method Footprint() returns (fp: AstroImage)
      ensures fresh(fp) && fresh(fp.data)
      ensures fp.header == header && fp.wcs == wcs
      ensures fp.data.Length0 == data.Length0 && fp.data.Length1 == data.Length1
      ensures forall i, j :: 0 <= i < data.Length0 && 0 <= j < data.Length1 ==>
        fp.data[i, j] == FootprintPixel(data[i, j])
    {
      var marks := new Pixel[data.Length0, data.Length1];
      forall i, j | 0 <= i < data.Length0 && 0 <= j < data.Length1 {
        marks[i, j] := FootprintPixel(data[i, j]);
      }
      fp := new AstroImage(marks, header, wcs);
    }

    /** `mask_blank(threshold)`: every pixel numerically equal to a value
        whose count exceeds `mean + 5 std + threshold` of the histogram's
        counts becomes NaN, in place; every other pixel keeps its value.
        Returns the image itself. */
    method MaskBlank(threshold: real) returns (self: AstroImage)
      modifies data
      ensures self == this
      ensures forall i, j :: 0 <= i < data.Length0 && 0 <= j < data.Length1 ==>
        data[i, j] == MaskWith(old(data[i, j]), Modes(old(Pixels()), threshold))
    {
      var modes := Modes(Pixels(), threshold);
      var k := 0;
      while k < |modes|
        invariant 0 <= k <= |modes|
        invariant forall i, j :: 0 <= i < data.Length0 && 0 <= j < data.Length1 ==>
          data[i, j] == MaskWith(old(data[i, j]), modes[..k])
      {
        var m := modes[k];
        forall i, j | 0 <= i < data.Length0 && 0 <= j < data.Length1 {
          data[i, j] := if NumEq(data[i, j], m) then NaN else data[i, j];
        }
        forall i, j | 0 <= i < data.Length0 && 0 <= j < data.Length1
          ensures data[i, j] == MaskWith(old(data[i, j]), modes[..k + 1])
        {
          MaskWithStep(old(data[i, j]), modes, k);
        }
        k := k + 1;
      }
      assert modes[..|modes|] == modes;
      self := this;
    }

    /** `rotate(angle, algorithm)` up to the resampling: after WCS work
        that is not modelled and touches no state of the image, the
        algorithm is checked; the image itself is not changed. The output
        shape handed to the resampling is the corrected `ShapeOut`, the
        array's (rows, columns); as written the source passes `self.shape`,
        (width, height), which `ShapeOutAsWritten` models. */
    method Rotate(angle: real, algorithm: string) returns (r: Result<Reprojection, RotateError>)
      ensures r == RotatePlan(angle, algorithm, ShapeOut(Shape()))
    {
      r := RotatePlan(angle, algorithm, ShapeOut(Shape()));
    }
  }

  /** Row `i` of an array stacked on the rows below it, flattened: each
      pixel sits at its row-major position. */
  lemma StackRow(a: array2<Pixel>, i: nat, row: seq<Pixel>, rest: seq<Pixel>)
    requires i < a.Length0
    requires |row| == a.Length1 && forall j :: 0 <= j < a.Length1 ==> row[j] == a[i, j]
    requires Flattened(a, i + 1, rest)
    ensures Flattened(a, i, row + rest)
  {
    forall r, j | i <= r < a.Length0 && 0 <= j < a.Length1
      ensures HoldsAt(row + rest, RowOffset(r - i, a.Length1) + j, a[r, j])
    {
      if r > i {
        var k := RowOffset(r - i - 1, a.Length1) + j;
        assert HoldsAt(rest, k, a[r, j]);
        assert RowOffset(r - i, a.Length1) + j == a.Length1 + k;
      }
    }
  }

  /** `ps` is rows `i` onwards of `a`, laid end to end: row `r` starts
      `r - i` rows in. */
  ghost predicate Flattened(a: array2<Pixel>, i: nat, ps: seq<Pixel>)
    reads a
    requires i <= a.Length0
  {
    && |ps| == RowOffset(a.Length0 - i, a.Length1)
    && forall r, j :: i <= r < a.Length0 && 0 <= j < a.Length1 ==>
      HoldsAt(ps, RowOffset(r - i, a.Length1) + j, a[r, j])
  }

  /** Position `k` of `ps` holds `p`. */
  predicate HoldsAt(ps: seq<Pixel>, k: int, p: Pixel) {
    0 <= k < |ps| && ps[k] == p
  }

  /** `q * n`, as `q` rows of `n` pixels laid end to end. */
  function RowOffset(q: nat, n: nat): nat {
    if q == 0 then 0 else n + RowOffset(q - 1, n)
  }

  lemma {:induction false} RowOffsetIsProduct(q: nat, n: nat)
    ensures RowOffset(q, n) == q * n
  {
    if q > 0 {
      RowOffsetIsProduct(q - 1, n);
      assert q * n == n + (q - 1) * n;
    }
  }

  lemma RowOffsetsAreProducts(n: nat)
    ensures forall q: nat :: RowOffset(q, n) == q * n
  {
    forall q: nat ensures RowOffset(q, n) == q * n {
      RowOffsetIsProduct(q, n);
    }
  }

  /** As written, `rotate` asks for an output array of width rows and
      height columns: for an image without WCS axis lengths whose width
      and height differ, that is the transpose of the input array's
      shape. */
  lemma ShapeOutAsWrittenTransposes(img: AstroImage)
    requires img.wcs.naxis1.None? && img.wcs.naxis2.None?
    requires img.data.Length0 != img.data.Length1
    ensures ShapeOutAsWritten(img.Shape()) != (img.data.Length0, img.data.Length1)
    ensures ShapeOutAsWritten(img.Shape()) == (img.data.Length1, img.data.Length0)
  {
  }

  /** The corrected output shape is the input array's own shape. */
  lemma ShapeOutMatchesArray(img: AstroImage)
    requires img.wcs.naxis1.None? && img.wcs.naxis2.None?
    ensures ShapeOut(img.Shape()) == (img.data.Length0, img.data.Length1)
  {
  }
}
