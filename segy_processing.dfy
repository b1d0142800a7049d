/**
 * The amplitude normaliser and the metadata summary of the SEG-Y backend.
 * Everything the segyio library computes (header decoding, the inline and
 * crossline numbers, sample times, slice extraction) arrives as a `SegyView`
 * value; this module only models what the backend does with it.
 */
module SegyProcessing {
  import opened Wrappers
  import Percentile

  /** A 2D amplitude array, row by row (sample index, then trace position). */
  type Slice = seq<seq<real>>

  /** All values of a slice in row-major order, as numpy sees them. */
  function Flatten(a: Slice): (flat: seq<real>)
    ensures flat == [] <==> forall i :: 0 <= i < |a| ==> a[i] == []
  {
    if a == [] then [] else a[0] + Flatten(a[1..])
  }

  /** Where the k-th flattened value sits in the slice. */
  lemma {:induction false} FlatPosition(a: Slice, k: nat) returns (i: nat, j: nat)
    requires k < |Flatten(a)|
    ensures i < |a| && j < |a[i]| && a[i][j] == Flatten(a)[k]
  {
    assert a != [];
    if k < |a[0]| {
      i, j := 0, k;
    } else {
      var i', j' := FlatPosition(a[1..], k - |a[0]|);
      i, j := i' + 1, j';
    }
  }

  /** Every value of the slice occurs among the flattened values. */
  lemma {:induction false} FlattenCovers(a: Slice)
    ensures forall i, j :: 0 <= i < |a| && 0 <= j < |a[i]| ==> a[i][j] in Flatten(a)
  {
    if a != [] {
      FlattenCovers(a[1..]);
      var f := Flatten(a);
      forall i, j | 0 <= i < |a| && 0 <= j < |a[i]|
        ensures a[i][j] in f
      {
        if i == 0 {
          assert f[j] == a[0][j];
        } else {
          assert a[1..][i - 1][j] == a[i][j];
        }
      }
    }
  }

  /** The clipping window [p1, p99] of `normalize`. */
  datatype Window = Window(p1: real, p99: real)

  /** The 1st and 99th percentiles of the flattened values. */
  function PercentileWindow(flat: seq<real>): (w: Window)
    requires |flat| > 0
    ensures w.p1 <= w.p99
    ensures exists i :: 0 <= i < |flat| && flat[i] <= w.p1
    ensures exists j :: 0 <= j < |flat| && w.p99 <= flat[j]
  {
    Percentile.PercentileMonotone(flat, 1, 99);
    Percentile.PercentileInRange(flat, 1);
    Percentile.PercentileInRange(flat, 99);
    Window(Percentile.Percentile(flat, 1), Percentile.Percentile(flat, 99))
  }

  /** The divisor: the window's width, or 1.0 when the window is a single point. */
  function Span(w: Window): (d: real)
    ensures d != 0.0
    ensures w.p1 == w.p99 ==> d == 1.0
    ensures w.p1 != w.p99 ==> d == w.p99 - w.p1
  {
    if w.p99 - w.p1 != 0.0 then w.p99 - w.p1 else 1.0
  }

  /** `np.clip(v, lo, hi)`, that is min(max(v, lo), hi). */
  function Clip(v: real, lo: real, hi: real): (c: real)
    ensures lo <= hi ==> lo <= c <= hi
    ensures lo <= v <= hi ==> c == v
    ensures v <= lo <= hi ==> c == lo
    ensures lo <= hi <= v ==> c == hi
  {
    var m := if v < lo then lo else v;
    if m > hi then hi else m
  }

  /** One output value: clip to the window, then shift and divide by the span. */
  function Rescale(v: real, w: Window): (r: real)
    requires w.p1 <= w.p99
    ensures 0.0 <= r <= 1.0
    ensures v <= w.p1 ==> r == 0.0
    ensures w.p1 < w.p99 && w.p99 <= v ==> r == 1.0
    ensures w.p1 == w.p99 ==> r == 0.0
    ensures w.p1 < w.p99 && w.p1 <= v <= w.p99 ==> r * (w.p99 - w.p1) == v - w.p1
  {
    var c := Clip(v, w.p1, w.p99);
    var d := Span(w);
    if w.p1 == w.p99 then
      assert c - w.p1 == 0.0;
      (c - w.p1) / d
    else
      assert 0.0 <= c - w.p1 <= d;
      (c - w.p1) / d
  }

  /** Rescale keeps the order of its inputs. */
  lemma RescaleMonotone(u: real, v: real, w: Window)
    requires w.p1 <= w.p99 && u <= v
    ensures Rescale(u, w) <= Rescale(v, w)
  {
    var cu, cv := Clip(u, w.p1, w.p99), Clip(v, w.p1, w.p99);
    assert cu <= cv;
    var d := Span(w);
    assert (cv - w.p1) / d - (cu - w.p1) / d == (cv - cu) / d;
  }

  /** One row rescaled through the window. */
  function RescaleRow(row: seq<real>, w: Window): (r: seq<real>)
    requires w.p1 <= w.p99
    ensures |r| == |row|
    ensures forall j :: 0 <= j < |row| ==> r[j] == Rescale(row[j], w)
  {
    seq(|row|, j requires 0 <= j < |row| => Rescale(row[j], w))
  }

  /** Every row rescaled through the window. */
  function RescaleSlice(a: Slice, w: Window): (r: Slice)
    requires w.p1 <= w.p99
    ensures |r| == |a|
    ensures forall i :: 0 <= i < |a| ==> r[i] == RescaleRow(a[i], w)
  {
    seq(|a|, i requires 0 <= i < |a| => RescaleRow(a[i], w))
  }

  /**
   * `normalize(arr)`: an array with no values comes back as it is; otherwise
   * every value is clipped to the 1st..99th percentile window of all values
   * and rescaled linearly into [0, 1].
   */
  function Normalize(a: Slice): (r: Slice)
    ensures |r| == |a|
    ensures forall i :: 0 <= i < |a| ==> |r[i]| == |a[i]|
    ensures Flatten(a) == [] ==> r == a
    ensures forall i, j :: 0 <= i < |r| && 0 <= j < |r[i]| ==> 0.0 <= r[i][j] <= 1.0
    ensures Flatten(a) != [] ==> r == RescaleSlice(a, PercentileWindow(Flatten(a)))
  {
    var flat := Flatten(a);
    if flat == [] then a else RescaleSlice(a, PercentileWindow(flat))
  }

  /** Values at or below p1 become 0; values at or above p99 become 1 unless the window is a point. */
  lemma NormalizeClipsFirst(a: Slice, i: nat, j: nat)
    requires i < |a| && j < |a[i]|
    ensures Flatten(a) != []
    ensures var w := PercentileWindow(Flatten(a));
      && (a[i][j] <= w.p1 ==> Normalize(a)[i][j] == 0.0)
      && (w.p1 < w.p99 && w.p99 <= a[i][j] ==> Normalize(a)[i][j] == 1.0)
  {
    assert a[i] != [];
    var w := PercentileWindow(Flatten(a));
    assert Normalize(a)[i] == RescaleRow(a[i], w);
  }

  /** A degenerate window (p1 == p99) maps every value to 0. */
  lemma NormalizeDegenerate(a: Slice)
    requires Flatten(a) != []
    requires PercentileWindow(Flatten(a)).p1 == PercentileWindow(Flatten(a)).p99
    ensures forall i, j :: 0 <= i < |a| && 0 <= j < |a[i]| ==> Normalize(a)[i][j] == 0.0
  {
  }

  /** A constant non-empty slice normalises to all zeros. */
  lemma {:induction false} NormalizeConstant(a: Slice, c: real)
    requires Flatten(a) != []
    requires forall i, j :: 0 <= i < |a| && 0 <= j < |a[i]| ==> a[i][j] == c
    ensures forall i, j :: 0 <= i < |a| && 0 <= j < |a[i]| ==> Normalize(a)[i][j] == 0.0
  {
    var flat := Flatten(a);
    forall k | 0 <= k < |flat| ensures flat[k] == c {
      var i, j := FlatPosition(a, k);
    }
    Percentile.PercentileConstant(flat, 1, c);
    Percentile.PercentileConstant(flat, 99, c);
    NormalizeDegenerate(a);
  }

  /** Normalisation preserves order between any two positions of the slice. */
  lemma NormalizeMonotone(a: Slice, i: nat, j: nat, k: nat, l: nat)
    requires i < |a| && j < |a[i]| && k < |a| && l < |a[k]|
    requires a[i][j] <= a[k][l]
    ensures Normalize(a)[i][j] <= Normalize(a)[k][l]
  {
    assert a[i] != [];
    var w := PercentileWindow(Flatten(a));
    assert Normalize(a)[i] == RescaleRow(a[i], w) && Normalize(a)[k] == RescaleRow(a[k], w);
    RescaleMonotone(a[i][j], a[k][l], PercentileWindow(Flatten(a)));
  }

  /** Unless the window is a point, the output reaches both 0 and 1. */
  lemma NormalizeReachesBounds(a: Slice)
    requires Flatten(a) != []
    requires PercentileWindow(Flatten(a)).p1 < PercentileWindow(Flatten(a)).p99
    ensures exists i, j :: 0 <= i < |a| && 0 <= j < |a[i]| && Normalize(a)[i][j] == 0.0
    ensures exists i, j :: 0 <= i < |a| && 0 <= j < |a[i]| && Normalize(a)[i][j] == 1.0
  {
    var flat := Flatten(a);
    var w := PercentileWindow(flat);
    var m :| 0 <= m < |flat| && flat[m] <= w.p1;
    var i0, j0 := FlatPosition(a, m);
    NormalizeClipsFirst(a, i0, j0);
    var n :| 0 <= n < |flat| && w.p99 <= flat[n];
    var i1, j1 := FlatPosition(a, n);
    NormalizeClipsFirst(a, i1, j1);
  }

  /** What segyio exposes about an open file; `None` where the attribute is missing. */
  datatype SegyView = SegyView(
    ilines: Option<seq<int>>,
    xlines: Option<seq<int>>,
    tracecount: nat,
    samples: seq<real>,
    iline: Option<map<int, Slice>>,
    xline: Option<map<int, Slice>>)

  /** The summary `get_segy_metadata` returns for an opened file. */
  datatype Metadata = Metadata(
    path: string,
    numTraces: nat,
    numInlines: nat,
    numCrosslines: nat,
    ilines: seq<int>,
    xlines: seq<int>,
    samplesPerTrace: nat,
    sampleRateUs: Option<int>)

  /** How many line numbers of each axis the summary lists. */
  const PreviewLength: nat := 50

  /** The line numbers when the attribute exists, else the empty list. */
  function LinesOrEmpty(lines: Option<seq<int>>): (s: seq<int>)
    ensures lines.None? ==> s == []
    ensures lines.Some? ==> s == lines.value
  {
    match lines
    case None => []
    case Some(l) => l
  }

  /** `list(...)[:50]`: the first line numbers, in order, at most 50 of them. */
  function Preview(lines: seq<int>): (p: seq<int>)
    ensures p <= lines
    ensures |p| <= PreviewLength
    ensures |lines| <= PreviewLength ==> p == lines
    ensures |lines| >= PreviewLength ==> |p| == PreviewLength
  {
    if |lines| <= PreviewLength then lines else lines[..PreviewLength]
  }

  /** Python's `int(x)` on a float: truncation toward zero. */
  function TruncateToInt(x: real): (n: int)
    ensures 0.0 <= x ==> 0 <= n && n as real <= x < n as real + 1.0
    ensures x < 0.0 ==> n <= 0 && n as real - 1.0 < x <= n as real
  {
    if x >= 0.0 then x.Floor else -((-x).Floor)
  }

  /** The sample interval from the first two sample times, when there are two. */
  function SampleRate(samples: seq<real>): (rate: Option<int>)
    ensures rate.Some? <==> |samples| > 1
    ensures |samples| > 1 ==> rate.value == TruncateToInt(samples[1] - samples[0])
  {
    if |samples| > 1 then Some(TruncateToInt(samples[1] - samples[0])) else None
  }

  /** `get_segy_metadata(path)` once segyio has opened the file as `f`. */
  function GetSegyMetadata(path: string, f: SegyView): (m: Metadata)
    ensures m.path == path && m.numTraces == f.tracecount
    ensures m.numInlines == |LinesOrEmpty(f.ilines)|
    ensures m.numCrosslines == |LinesOrEmpty(f.xlines)|
    ensures m.ilines <= LinesOrEmpty(f.ilines) && |m.ilines| == if m.numInlines < PreviewLength then m.numInlines else PreviewLength
    ensures m.xlines <= LinesOrEmpty(f.xlines) && |m.xlines| == if m.numCrosslines < PreviewLength then m.numCrosslines else PreviewLength
    ensures m.samplesPerTrace == |f.samples|
    ensures m.sampleRateUs.Some? <==> |f.samples| > 1
    ensures m.sampleRateUs.Some? ==> m.sampleRateUs.value == TruncateToInt(f.samples[1] - f.samples[0])
  {
    var il := LinesOrEmpty(f.ilines);
    var xl := LinesOrEmpty(f.xlines);
    Metadata(path, f.tracecount, |il|, |xl|, Preview(il), Preview(xl), |f.samples|, SampleRate(f.samples))
  }

  /** Why a slice request fails. */
  datatype SliceError =
    | NoInlineAccessor      // "SEGY has no inline accessor"
    | NoCrosslineAccessor   // "SEGY has no crossline accessor"
    | LineNotFound(id: int) // segyio's lookup of a line number it does not have

  /** Looks a line up in an accessor and normalises it. */
  function NormalizedLine(lines: map<int, Slice>, id: int): (r: Result<Slice, SliceError>)
    ensures id !in lines ==> r == Err(LineNotFound(id))
    ensures id in lines ==> r.Ok? && r.value == Normalize(lines[id])
  {
    if id in lines then Ok(Normalize(lines[id])) else Err(LineNotFound(id))
  }

  /** `get_inline_slice(path, iline_id)`: the inline's 2D array, normalised. */
  function GetInlineSlice(f: SegyView, ilineId: int): (r: Result<Slice, SliceError>)
    ensures f.iline.None? ==> r == Err(NoInlineAccessor)
    ensures f.iline.Some? && ilineId !in f.iline.value ==> r == Err(LineNotFound(ilineId))
    ensures r.Ok? ==> f.iline.Some? && ilineId in f.iline.value
    ensures r.Ok? ==> r.value == Normalize(f.iline.value[ilineId])
    ensures r.Ok? ==> var a := f.iline.value[ilineId];
      && |r.value| == |a|
      && (forall i :: 0 <= i < |a| ==> |r.value[i]| == |a[i]|)
      && (forall i, j :: 0 <= i < |a| && 0 <= j < |a[i]| ==> 0.0 <= r.value[i][j] <= 1.0)
  {
    match f.iline
    case None => Err(NoInlineAccessor)
    case Some(lines) => NormalizedLine(lines, ilineId)
  }

  /** `get_crossline_slice(path, xline_id)`: the crossline's 2D array, normalised. */
  function GetCrosslineSlice(f: SegyView, xlineId: int): (r: Result<Slice, SliceError>)
    ensures f.xline.None? ==> r == Err(NoCrosslineAccessor)
    ensures f.xline.Some? && xlineId !in f.xline.value ==> r == Err(LineNotFound(xlineId))
    ensures r.Ok? ==> f.xline.Some? && xlineId in f.xline.value
    ensures r.Ok? ==> r.value == Normalize(f.xline.value[xlineId])
    ensures r.Ok? ==> var a := f.xline.value[xlineId];
      && |r.value| == |a|
      && (forall i :: 0 <= i < |a| ==> |r.value[i]| == |a[i]|)
      && (forall i, j :: 0 <= i < |a| && 0 <= j < |a[i]| ==> 0.0 <= r.value[i][j] <= 1.0)
  {
    match f.xline
    case None => Err(NoCrosslineAccessor)
    case Some(lines) => NormalizedLine(lines, xlineId)
  }
}
