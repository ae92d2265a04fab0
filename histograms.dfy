/**
  The bin-level arithmetic the drawing steps do themselves rather than inside ROOT:
  the bin-count expressions of DrawLightCurve, DrawDeltaTimeTag,
  DrawDeltaTriggerCount and DrawSpectrum, the per-bin rescale loops that turn
  counts into rates, and the loop that feeds the positive light-curve bins into
  the count-distribution histogram.
*/
module Histograms {
  import opened Wrappers
  import opened PyScalars
  import IntText
  import FloatText

  /** The exceptions the bin arithmetic can raise. */
  datatype BinError =
    | NotConvertible  // int() or float() of a value it cannot read (ValueError)
    | NotANumber      // arithmetic on a str (TypeError)
    | ZeroDivision    // ZeroDivisionError

  // ----- bin counts -----

  /** nbin of DrawLightCurve: int(int(HEADER_EXPOSURE) / LC_TBIN). */
  function LightCurveBinCount(exposure: Value, tbin: Value): (r: Result<int, BinError>)
    ensures r == Failure(NotConvertible) <==> PyInt(exposure).None?
    ensures r == Failure(NotANumber) <==> PyInt(exposure).Some? && tbin.Str?
    ensures r == Failure(ZeroDivision) <==> PyInt(exposure).Some? && !tbin.Str? && AsReal(ToNum(tbin).value) == 0.0
  {
    match PyInt(exposure)
    case None => Failure(NotConvertible)
    case Some(e) =>
      match ToNum(tbin)
      case None => Failure(NotANumber)
      case Some(t) =>
        match Div(I(e), t)
        case None => Failure(ZeroDivision)
        case Some(q) => Success(NumToInt(q))
  }

  /** nbin of DrawDeltaTimeTag: int(float(DELTAT_PLOT_XMAX) / float(DELTAT_TBIN)). */
  function DeltaTimeTagBinCount(xmax: Value, tbin: Value): (r: Result<int, BinError>)
    ensures r == Failure(NotConvertible) <==> PyFloat(xmax).None? || PyFloat(tbin).None?
    ensures r == Failure(ZeroDivision) <==> PyFloat(xmax).Some? && PyFloat(tbin).Some? && PyFloat(tbin).value == 0.0
    ensures r != Failure(NotANumber)
    ensures !xmax.Str? && !tbin.Str? ==> r != Failure(NotConvertible)
  {
    match (PyFloat(xmax), PyFloat(tbin))
    case (Some(x), Some(t)) =>
      if t == 0.0 then Failure(ZeroDivision)
      else Success(Trunc(x / t))
    case _ => Failure(NotConvertible)
  }

  /** nbin of DrawDeltaTriggerCount: int(DELTATRIGGERCOUNT_PLOT_XMAX). */
  function DeltaTriggerCountBinCount(xmax: Value): (r: Result<int, BinError>)
    ensures r.Failure? ==> xmax.Str? && r.error == NotConvertible
    ensures xmax.Int? ==> r == Success(xmax.i)
    ensures xmax.Float? && xmax.x >= 0.0 ==> r.Success? && r.value as real <= xmax.x < r.value as real + 1.0
    ensures xmax.Float? && xmax.x < 0.0 ==> r.Success? && r.value as real - 1.0 < xmax.x <= r.value as real
  {
    match PyInt(xmax)
    case None => Failure(NotConvertible)
    case Some(n) => Success(n)
  }

  /** nbin of DrawSpectrum: int(SPEC_PLOT_XMAX - SPEC_PLOT_XMIN). */
  function SpectrumBinCount(xmin: Value, xmax: Value): (r: Result<int, BinError>)
    ensures r.Failure? <==> xmin.Str? || xmax.Str?
    ensures r.Failure? ==> r.error == NotANumber
    ensures xmin.Int? && xmax.Int? ==> r == Success(xmax.i - xmin.i)
    ensures r.Success? ==>
      var w := AsReal(ToNum(xmax).value) - AsReal(ToNum(xmin).value);
      (w >= 0.0 ==> r.value as real <= w < r.value as real + 1.0)
      && (w < 0.0 ==> r.value as real - 1.0 < w <= r.value as real)
  {
    match (ToNum(xmax), ToNum(xmin))
    case (Some(b), Some(a)) => Success(NumToInt(Sub(b, a)))
    case _ => Failure(NotANumber)
  }

  lemma ScaleBounds(n: real, q: real, t: real, x: real)
    requires 0.0 < t && n <= q < n + 1.0 && q * t == x
    ensures n * t <= x < n * t + t
  {
    ScaleLower(n, q, t, x);
    ScaleUpper(n, q, t, x);
  }

  lemma ScaleLower(n: real, q: real, t: real, x: real)
    requires 0.0 < t && n <= q && q * t == x
    ensures n * t <= x
  {
  }

  lemma ScaleUpper(n: real, q: real, t: real, x: real)
    requires 0.0 < t && q < n + 1.0 && q * t == x
    ensures x < n * t + t
  {
    var d := n + 1.0 - q;
    assert d > 0.0;
    assert d * t > 0.0;
    assert d * t == n * t + t - q * t;
    assert n * t + t - q * t > 0.0;
    assert n * t + t - x > 0.0;
  }

  /** n bins of width t fit in [0, x], and n + 1 would not. */
  predicate Covers(n: int, t: real, x: real) {
    n as real * t <= x < n as real * t + t
  }

  lemma TruncScale(x: real, t: real)
    requires 0.0 <= x && 0.0 < t
    ensures Covers(Trunc(x / t), t, x)
  {
    var q := x / t;
    assert q >= 0.0;
    assert q * t == x;
    ScaleBounds(Trunc(q) as real, q, t, x);
  }

  lemma FloorScale(e: int, t: int)
    requires 0 < t
    ensures Covers(FloorDiv(e, t), t as real, e as real)
  {
    var q := FloorDiv(e, t);
    assert t * q <= e < t * q + t;
    assert (t * q) as real == q as real * t as real;
  }

  /** Light curve: for a non-negative exposure and a positive bin width, nbin * LC_TBIN <= exposure < (nbin + 1) * LC_TBIN. */
  lemma LightCurveBinsCoverExposure(exposure: Value, tbin: Value)
    requires LightCurveBinCount(exposure, tbin).Success?
    requires PyInt(exposure).value >= 0 && AsReal(ToNum(tbin).value) > 0.0
    ensures Covers(LightCurveBinCount(exposure, tbin).value, AsReal(ToNum(tbin).value), PyInt(exposure).value as real)
  {
    var e := PyInt(exposure).value;
    var t := ToNum(tbin).value;
    var q := Div(I(e), t).value;
    assert LightCurveBinCount(exposure, tbin).value == NumToInt(q);
    match t
    case I(k) =>
      assert NumToInt(q) == FloorDiv(e, k);
      FloorScale(e, k);
    case R(x) =>
      assert NumToInt(q) == Trunc(e as real / x);
      TruncScale(e as real, x);
  }

  /** Delta time tag: nbin * DELTAT_TBIN <= DELTAT_PLOT_XMAX < (nbin + 1) * DELTAT_TBIN. */
  lemma DeltaTimeTagBinsCoverRange(xmax: Value, tbin: Value)
    requires DeltaTimeTagBinCount(xmax, tbin).Success?
    requires PyFloat(xmax).value >= 0.0 && PyFloat(tbin).value > 0.0
    ensures Covers(DeltaTimeTagBinCount(xmax, tbin).value, PyFloat(tbin).value, PyFloat(xmax).value)
  {
    TruncScale(PyFloat(xmax).value, PyFloat(tbin).value);
  }

  /** Configuration text that float() reads gives a bin count like the number itself. */
  lemma DeltaTimeTagReadsText()
    ensures DeltaTimeTagBinCount(Str("2.0"), Float(1.0)) == Success(2)
    ensures DeltaTimeTagBinCount(Float(0.001), Str("1e-5")) == Success(100)
  {
    FloatText.ParseFloatOfPointedExample();
    FloatText.ParseFloatOfScientificExample();
    assert Trunc(2.0 / 1.0) == 2;
    assert Trunc(0.001 / 0.00001) == 100;
  }

  /** An int bin width rounds a negative exposure down, a float one rounds it toward zero. */
  lemma NegativeExposureRounding(e: int, t: int)
    requires e < 0 && t > 0 && e % t != 0
    ensures LightCurveBinCount(Int(e), Int(t)) == Success(e / t)
    ensures LightCurveBinCount(Int(e), Float(t as real)) == Success(e / t + 1)
  {
    var x := e as real / t as real;
    QuotientBetween(e, t);
    assert x < 0.0;
    assert Trunc(x) == e / t + 1;
    assert LightCurveBinCount(Int(e), Float(t as real)) == Success(Trunc(x));
  }

  /** A quotient that is not whole lies strictly between two consecutive integers. */
  lemma QuotientBetween(e: int, t: int)
    requires t > 0 && e % t != 0
    ensures (e / t) as real < e as real / t as real < (e / t + 1) as real
    ensures e < 0 ==> e / t < 0
  {
    var q := e / t;
    var x := e as real / t as real;
    assert q * t < e < q * t + t;
    assert x * t as real == e as real;
    assert (q * t) as real == q as real * t as real;
    assert ((q + 1) * t) as real == (q + 1) as real * t as real;
    MulMonotone(q as real, x, t as real);
    MulMonotone(x, (q + 1) as real, t as real);
  }

  lemma MulMonotone(a: real, b: real, t: real)
    requires 0.0 < t && a * t < b * t
    ensures a < b
  {
  }

  /** A YAML integer written as text is read by int() as that integer. */
  lemma DeltaTriggerCountReadsText(n: int, pre: string, post: string)
    requires IntText.AllSpace(pre) && IntText.AllSpace(post)
    ensures DeltaTriggerCountBinCount(Str(pre + IntText.Show(n) + post)) == Success(n)
  {
    IntText.ParseShowRoundTrip(n, pre, post);
  }

  // ----- histograms -----

  /**
    A one-dimensional ROOT histogram with nbins bins: index 0 is the underflow bin,
    1..nbins the regular bins and nbins + 1 the overflow bin, each with a content
    and an error.
  */
  class Histogram {
    const nbins: nat
    const content: array<real>
    const error: array<real>

    predicate Valid()
      reads this
    {
      content.Length == nbins + 2 && error.Length == nbins + 2 && content != error
    }

    /** TH1D(name, title, n, low, high): every bin empty. */
    constructor (n: nat)
      ensures Valid() && nbins == n
      ensures fresh(content) && fresh(error)
      ensures forall i :: 0 <= i < n + 2 ==> content[i] == 0.0 && error[i] == 0.0
    {
      nbins := n;
      content := new real[n + 2](_ => 0.0);
      error := new real[n + 2](_ => 0.0);
    }

    method SetBinContent(i: nat, v: real)
      requires Valid() && i < nbins + 2
      modifies content
      ensures content[..] == old(content[..])[i := v]
    {
      content[i] := v;
    }

    method SetBinError(i: nat, v: real)
      requires Valid() && i < nbins + 2
      modifies error
      ensures error[..] == old(error[..])[i := v]
    {
      error[i] := v;
    }
  }

  /** The bins divided by d. */
  function Scaled(s: seq<real>, d: real): (r: seq<real>)
    requires d != 0.0
    ensures |r| == |s|
    ensures forall i :: 0 <= i < |s| ==> r[i] * d == s[i]
  {
    seq(|s|, i requires 0 <= i < |s| => s[i] / d)
  }

  /** The divisor of a rescale loop as a Python number; dividing by it raises otherwise. */
  function Divisor(v: Value): (r: Result<real, BinError>)
    ensures r.Success? <==> !v.Str? && AsReal(ToNum(v).value) != 0.0
    ensures r.Success? ==> r.value == AsReal(ToNum(v).value)
    ensures r == Failure(NotANumber) <==> v.Str?
  {
    match ToNum(v)
    case None => Failure(NotANumber)
    case Some(n) => if AsReal(n) == 0.0 then Failure(ZeroDivision) else Success(AsReal(n))
  }

  /**
    The rescale loops (counts per bin to counts per second): for every bin index
    0..nbins, the destination's content and error are the source's divided by the
    divisor (LC_TBIN or HEADER_EXPOSURE). The overflow bin is not visited. The
    first division raises when the divisor is a str or zero, before any bin is set.
  */
  method RescaleBins(src: Histogram, dst: Histogram, divisor: Value) returns (r: Result<(), BinError>)
    requires src.Valid() && dst.Valid() && src.nbins == dst.nbins
    requires src.content != dst.content && src.content != dst.error
    requires src.error != dst.content && src.error != dst.error
    modifies dst.content, dst.error
    ensures r.Failure? <==> Divisor(divisor).Failure?
    ensures r.Failure? ==> r.error == Divisor(divisor).error
    ensures r.Failure? ==> dst.content[..] == old(dst.content[..]) && dst.error[..] == old(dst.error[..])
    ensures r.Success? ==>
      dst.content[..] == Scaled(src.content[..src.nbins + 1], Divisor(divisor).value) + [old(dst.content[dst.nbins + 1])]
    ensures r.Success? ==>
      dst.error[..] == Scaled(src.error[..src.nbins + 1], Divisor(divisor).value) + [old(dst.error[dst.nbins + 1])]
  {
    var d := Divisor(divisor);
    if d.Failure? {
      return Failure(d.error);
    }
    var x := d.value;
    var i := 0;
    while i < src.nbins + 1
      invariant 0 <= i <= src.nbins + 1
      invariant forall j :: 0 <= j < i ==> dst.content[j] == src.content[j] / x && dst.error[j] == src.error[j] / x
      invariant forall j :: i <= j < dst.nbins + 2 ==> dst.content[j] == old(dst.content[j]) && dst.error[j] == old(dst.error[j])
    {
      dst.SetBinContent(i, src.content[i] / x);
      dst.SetBinError(i, src.error[i] / x);
      i := i + 1;
    }
    assert dst.content[..] == Scaled(src.content[..src.nbins + 1], x) + [old(dst.content[dst.nbins + 1])];
    assert dst.error[..] == Scaled(src.error[..src.nbins + 1], x) + [old(dst.error[dst.nbins + 1])];
    return Success(());
  }

  // ----- the positive-bin filter -----

  /** The bin contents that are > 0, in index order. */
  function Positives(s: seq<real>): (r: seq<real>)
    ensures |r| <= |s|
    ensures forall k :: 0 <= k < |r| ==> r[k] > 0.0
    decreases |s|
  {
    if s == [] then []
    else Positives(s[..|s| - 1]) + (if s[|s| - 1] > 0.0 then [s[|s| - 1]] else [])
  }

  /** The indices of the bins whose content is > 0, in increasing order. */
  function PositiveIndices(s: seq<real>): (r: seq<nat>)
    ensures forall k :: 0 <= k < |r| ==> r[k] < |s|
    decreases |s|
  {
    if s == [] then []
    else PositiveIndices(s[..|s| - 1]) + (if s[|s| - 1] > 0.0 then [|s| - 1] else [])
  }

  /** Every listed bin is positive. */
  lemma {:induction false} PositiveIndicesArePositive(s: seq<real>)
    ensures forall k :: 0 <= k < |PositiveIndices(s)| ==> s[PositiveIndices(s)[k]] > 0.0
    decreases |s|
  {
    if s != [] {
      var n := |s| - 1;
      var init := s[..n];
      PositiveIndicesArePositive(init);
      var a := PositiveIndices(init);
      var r := PositiveIndices(s);
      assert r == a + (if s[n] > 0.0 then [n] else []);
      forall k | 0 <= k < |r|
        ensures s[r[k]] > 0.0
      {
        if k < |a| {
          assert r[k] == a[k] && init[a[k]] == s[a[k]];
        }
      }
    }
  }

  /** The bins are listed in increasing index order, each once. */
  lemma {:induction false} PositiveIndicesIncrease(s: seq<real>)
    ensures forall k, l :: 0 <= k < l < |PositiveIndices(s)| ==> PositiveIndices(s)[k] < PositiveIndices(s)[l]
    decreases |s|
  {
    if s != [] {
      var n := |s| - 1;
      var init := s[..n];
      PositiveIndicesIncrease(init);
      var a := PositiveIndices(init);
      var r := PositiveIndices(s);
      assert r == a + (if s[n] > 0.0 then [n] else []);
      forall k, l | 0 <= k < l < |r|
        ensures r[k] < r[l]
      {
        if l < |a| {
          assert r[k] == a[k] && r[l] == a[l];
        } else {
          assert r[k] == a[k] && a[k] < |init|;
        }
      }
    }
  }

  /** Every positive bin is listed. */
  lemma {:induction false} PositiveIndicesComplete(s: seq<real>)
    ensures forall i :: 0 <= i < |s| && s[i] > 0.0 ==> i in PositiveIndices(s)
    decreases |s|
  {
    if s != [] {
      var n := |s| - 1;
      var init := s[..n];
      PositiveIndicesComplete(init);
      var a := PositiveIndices(init);
      var r := PositiveIndices(s);
      assert r == a + (if s[n] > 0.0 then [n] else []);
      forall i | 0 <= i < |s| && s[i] > 0.0
        ensures i in r
      {
        if i < n {
          assert init[i] == s[i];
          assert i in a;
        } else {
          assert r[|r| - 1] == i;
        }
      }
    }
  }

  /** The values fed are exactly the contents of the positive bins, in index order. */
  lemma {:induction false} PositivesAtIndices(s: seq<real>)
    ensures |Positives(s)| == |PositiveIndices(s)|
    ensures forall k :: 0 <= k < |Positives(s)| ==> Positives(s)[k] == s[PositiveIndices(s)[k]]
    decreases |s|
  {
    if s != [] {
      var n := |s| - 1;
      var init := s[..n];
      PositivesAtIndices(init);
      var a := PositiveIndices(init);
      var p := Positives(init);
      assert PositiveIndices(s) == a + (if s[n] > 0.0 then [n] else []);
      assert Positives(s) == p + (if s[n] > 0.0 then [s[n]] else []);
      forall k | 0 <= k < |Positives(s)|
        ensures Positives(s)[k] == s[PositiveIndices(s)[k]]
      {
        if k < |p| {
          assert Positives(s)[k] == p[k] == init[a[k]];
          assert PositiveIndices(s)[k] == a[k];
        }
      }
    }
  }

  /** The count-distribution histogram, seen as the sequence of values passed to Fill. */
  class FillLog {
    var values: seq<real>

    constructor ()
      ensures values == []
    {
      values := [];
    }

    method Fill(x: real)
      modifies this
      ensures values == old(values) + [x]
    {
      values := values + [x];
    }
  }

  /** The loop of DrawLightCurve that fills the count distribution with the positive bins 0..nbins. */
  method FillPositiveBins(src: Histogram, lchist: FillLog)
    requires src.Valid()
    modifies lchist
    ensures lchist.values == old(lchist.values) + Positives(src.content[..src.nbins + 1])
  {
    var i := 0;
    while i < src.nbins + 1
      invariant 0 <= i <= src.nbins + 1
      invariant lchist.values == old(lchist.values) + Positives(src.content[..i])
    {
      assert src.content[..i + 1][..i] == src.content[..i];
      if src.content[i] > 0.0 {
        lchist.Fill(src.content[i]);
      }
      i := i + 1;
    }
  }
}
