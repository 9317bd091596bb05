/** The analysis of one cell: a fixed rectangle of a pixel-record store, over which the cell
    asks whether any pixel is set, averages the colour, counts quantised colours for the
    entropy, reports its bounding box and extracts its pixels. Every read goes through the
    store's bounds-checked `getChannelValues`, so a read that fails ends the analysis with
    that failure. */
module Cells {
  import opened Outcomes
  import opened Geometry
  import opened CanvasStore

  /** The colour channels the cell sums and counts. */
  datatype Component = Red | Green | Blue

  /** `pixel.c` of a read record: the value of channel c, `undefined` when it has none. */
  function Channel(p: Rgba, c: Component): Option<int> {
    match c
    case Red => p.r
    case Green => p.g
    case Blue => p.b
  }

  // ---------------------------------------------------------------- hasPixels

  /** The read of p succeeds and its r is defined: the scan stops with true. */
  predicate Hit(d: ImageData, p: Point) {
    PixelAt(d, p.x, p.y).Ok? && PixelAt(d, p.x, p.y).value.r.Some?
  }

  /** The read of p succeeds but its r is `undefined`: the scan goes on. */
  predicate Miss(d: ImageData, p: Point) {
    PixelAt(d, p.x, p.y).Ok? && PixelAt(d, p.x, p.y).value.r.None?
  }

  /** `hasPixels` over the points ps in order: true at the first read with a defined r,
      the failure of a read that fails before that, false when all reads pass without one. */
  function ScanHit(d: ImageData, ps: seq<Point>): Result<bool> {
    if ps == [] then Ok(false)
    else
      match PixelAt(d, ps[0].x, ps[0].y)
      case Err(e) => Err(e)
      case Ok(v) => if v.r.Some? then Ok(true) else ScanHit(d, ps[1..])
  }

  /** The scan ends with false exactly when every point reads successfully without an r. */
  lemma {:induction false} ScanHitFalse(d: ImageData, ps: seq<Point>)
    ensures ScanHit(d, ps) == Ok(false) <==> forall i :: 0 <= i < |ps| ==> Miss(d, ps[i])
  {
    if ps != [] {
      ScanHitFalse(d, ps[1..]);
      assert forall i :: 1 <= i < |ps| ==> ps[i] == ps[1..][i - 1];
    }
  }

  /** Any other outcome is decided by the first point that is not a miss: true when that
      point has an r, its failure when its read fails. */
  lemma {:induction false} ScanHitDecided(d: ImageData, ps: seq<Point>)
    requires ScanHit(d, ps) != Ok(false)
    ensures exists i :: 0 <= i < |ps| && !Miss(d, ps[i]) && (forall j :: 0 <= j < i ==> Miss(d, ps[j])) &&
              ScanHit(d, ps) == (if Hit(d, ps[i]) then Ok(true) else Err(PixelAt(d, ps[i].x, ps[i].y).error))
  {
    assert ps != [];
    if Miss(d, ps[0]) {
      ScanHitDecided(d, ps[1..]);
      var i :| 0 <= i < |ps[1..]| && !Miss(d, ps[1..][i]) && (forall j :: 0 <= j < i ==> Miss(d, ps[1..][j])) &&
               ScanHit(d, ps[1..]) == (if Hit(d, ps[1..][i]) then Ok(true) else Err(PixelAt(d, ps[1..][i].x, ps[1..][i].y).error));
      assert ps[i + 1] == ps[1..][i];
      forall j | 0 <= j < i + 1
        ensures Miss(d, ps[j])
      {
        if j > 0 {
          assert ps[j] == ps[1..][j - 1];
        }
      }
    } else {
      assert !Miss(d, ps[0]);
    }
  }

  /** The scan stops at the first hit or failure: scanning ps and then qs reads qs only
      when ps passes without a hit, so nothing after the deciding point is ever read. */
  lemma {:induction false} ScanHitAppend(d: ImageData, ps: seq<Point>, qs: seq<Point>)
    ensures ScanHit(d, ps + qs) == if ScanHit(d, ps) == Ok(false) then ScanHit(d, qs) else ScanHit(d, ps)
  {
    if ps == [] {
      assert ps + qs == qs;
    } else {
      assert (ps + qs)[0] == ps[0];
      assert (ps + qs)[1..] == ps[1..] + qs;
      ScanHitAppend(d, ps[1..], qs);
    }
  }

  /** One step of the scan loop along row y: the read v of (x, y) fails, hits, or passes
      the scan on to x + 1. */
  lemma ScanStep(d: ImageData, x: int, xEnd: int, y: int, v: Result<Rgba>)
    requires x < xEnd && v == PixelAt(d, x, y)
    ensures v.Err? ==> ScanHit(d, Row(x, xEnd, y)) == Err(v.error)
    ensures v.Ok? && v.value.r.Some? ==> ScanHit(d, Row(x, xEnd, y)) == Ok(true)
    ensures v.Ok? && v.value.r.None? ==> ScanHit(d, Row(x, xEnd, y)) == ScanHit(d, Row(x + 1, xEnd, y))
  {
    var row := Row(x, xEnd, y);
    assert row[0] == Point(x, y) && row[1..] == Row(x + 1, xEnd, y);
  }

  /** One row of the scan: a row that decides the scan (a hit or a failure) ends it, a row
      without a hit passes it on to the next row. */
  lemma ScanRowsStep(d: ImageData, xStart: int, xEnd: int, y: int, yEnd: int, found: Result<bool>)
    requires y < yEnd && found == ScanHit(d, Row(xStart, xEnd, y))
    ensures found != Ok(false) ==> ScanHit(d, Rows(xStart, xEnd, y, yEnd)) == found
    ensures found == Ok(false) ==> ScanHit(d, Rows(xStart, xEnd, y, yEnd)) == ScanHit(d, Rows(xStart, xEnd, y + 1, yEnd))
  {
    ScanHitAppend(d, Row(xStart, xEnd, y), Rows(xStart, xEnd, y + 1, yEnd));
  }

  /** The end of a scan loop: nothing is left to scan. */
  lemma ScanEnd(d: ImageData, xStart: int, xEnd: int, y: int, yEnd: int)
    ensures xStart >= xEnd ==> ScanHit(d, Row(xStart, xEnd, y)) == Ok(false)
    ensures y >= yEnd ==> ScanHit(d, Rows(xStart, xEnd, y, yEnd)) == Ok(false)
  {
  }

  /** A cell of no width or no height has no pixels. */
  lemma EmptyCellHasNoPixels(d: ImageData, c: Rect)
    requires c.width <= 0 || c.height <= 0
    ensures ScanHit(d, Pixels(c)) == Ok(false)
  {
    RowsLength(c.x, c.x + c.width, c.y, c.y + c.height);
    assert Max0(c.width) == 0 || Max0(c.height) == 0;
  }

  /** Every pixel of a cell inside a complete image reads successfully. */
  lemma ReadsInside(d: ImageData, c: Rect)
    requires 0 <= c.x && c.x + c.width <= d.width && 0 <= c.y && c.y + c.height <= d.height
    requires Complete(d)
    ensures forall i :: 0 <= i < |Pixels(c)| ==> PixelAt(d, Pixels(c)[i].x, Pixels(c)[i].y).Ok?
  {
    var ps := Pixels(c);
    forall i | 0 <= i < |ps|
      ensures PixelAt(d, ps[i].x, ps[i].y).Ok?
    {
      RowsMembership(c.x, c.x + c.width, c.y, c.y + c.height, ps[i]);
      assert InBounds(d, ps[i].x, ps[i].y);
    }
  }

  /** When every read succeeds, the scan succeeds and answers whether some point has an r. */
  lemma {:induction false} ScanHitAllRead(d: ImageData, ps: seq<Point>)
    requires forall i :: 0 <= i < |ps| ==> PixelAt(d, ps[i].x, ps[i].y).Ok?
    ensures ScanHit(d, ps).Ok?
    ensures ScanHit(d, ps).value <==> exists i :: 0 <= i < |ps| && Hit(d, ps[i])
  {
    if ps != [] {
      var t := ps[1..];
      assert forall i :: 0 <= i < |t| ==> t[i] == ps[i + 1];
      ScanHitAllRead(d, t);
      if (exists i :: 0 <= i < |ps| && Hit(d, ps[i])) && !Hit(d, ps[0]) {
        var i :| 0 <= i < |ps| && Hit(d, ps[i]);
        assert Hit(d, t[i - 1]);
      }
      if exists i :: 0 <= i < |t| && Hit(d, t[i]) {
        var i :| 0 <= i < |t| && Hit(d, t[i]);
        assert Hit(d, ps[i + 1]);
      }
    }
  }

  /** A cell whose reads all succeed has pixels exactly when one of its pixels has an r. */
  lemma ScanHitRect(d: ImageData, c: Rect)
    requires forall i :: 0 <= i < |Pixels(c)| ==> PixelAt(d, Pixels(c)[i].x, Pixels(c)[i].y).Ok?
    ensures ScanHit(d, Pixels(c)).Ok?
    ensures ScanHit(d, Pixels(c)).value <==>
              exists p :: InRect(p, c.x, c.x + c.width, c.y, c.y + c.height) && Hit(d, p)
  {
    var ps := Pixels(c);
    ScanHitAllRead(d, ps);
    if exists i :: 0 <= i < |ps| && Hit(d, ps[i]) {
      var i :| 0 <= i < |ps| && Hit(d, ps[i]);
      HitInside(d, c, i);
    }
    if exists p :: InRect(p, c.x, c.x + c.width, c.y, c.y + c.height) && Hit(d, p) {
      var p :| InRect(p, c.x, c.x + c.width, c.y, c.y + c.height) && Hit(d, p);
      HitVisited(d, c, p);
    }
  }

  lemma HitInside(d: ImageData, c: Rect, i: int)
    requires 0 <= i < |Pixels(c)| && Hit(d, Pixels(c)[i])
    ensures exists p :: InRect(p, c.x, c.x + c.width, c.y, c.y + c.height) && Hit(d, p)
  {
    RowsMembership(c.x, c.x + c.width, c.y, c.y + c.height, Pixels(c)[i]);
  }

  lemma HitVisited(d: ImageData, c: Rect, p: Point)
    requires InRect(p, c.x, c.x + c.width, c.y, c.y + c.height) && Hit(d, p)
    ensures exists i :: 0 <= i < |Pixels(c)| && Hit(d, Pixels(c)[i])
  {
    var i := RowsPosition(c.x, c.x + c.width, c.y, c.y + c.height, p);
    assert Pixels(c)[i] == p;
  }

  /** A cell inside the image reads without failure in a complete image, and then it has
      pixels exactly when one of its pixels has a defined r. */
  lemma HasPixelsInside(d: ImageData, c: Rect)
    requires 0 <= c.x && c.x + c.width <= d.width && 0 <= c.y && c.y + c.height <= d.height
    requires Complete(d)
    ensures ScanHit(d, Pixels(c)).Ok?
    ensures ScanHit(d, Pixels(c)).value <==>
              exists p :: InRect(p, c.x, c.x + c.width, c.y, c.y + c.height) && Hit(d, p)
  {
    ReadsInside(d, c);
    ScanHitRect(d, c);
  }

  /** A 4 × 4 image that stores a single record: the 2 × 2 cell at the origin has pixels,
      because the scan stops at that first record and never reaches the missing entries that
      make a read of the whole cell fail. */
  lemma FirstHitStopsScan()
    ensures var d := ImageData(ImageMetadata("png", 16, RGBA), 4, 4, [Some(map["r" := 255, "g" := 0, "b" := 0, "a" := 0])]);
            ScanHit(d, Pixels(Rect(0, 0, 2, 2))) == Ok(true) && Region(d, 0, 2, 0, 2) == Err(MissingPixel)
  {
    var d := ImageData(ImageMetadata("png", 16, RGBA), 4, 4, [Some(map["r" := 255, "g" := 0, "b" := 0, "a" := 0])]);
    var ps := Rows(0, 2, 0, 2);
    RowShape(0, 2, 0);
    assert ps == Row(0, 2, 0) + Rows(0, 2, 1, 2);
    assert ps[0] == Point(0, 0) && ps[1] == Point(1, 0);
    assert Hit(d, ps[0]);
    assert PixelAt(d, 1, 0) == Err(MissingPixel);
    ReadAllFirstFailure(d, ps);
    ReadAllSucceeds(d, ps);
    assert ReadAll(d, ps).Err? by {
      assert ps[1..] == [Point(1, 0)] + ps[2..];
      assert ReadAll(d, ps[1..]) == Err(MissingPixel);
    }
  }

  // ---------------------------------------------------------------- getAverageColor

  /** `a + b` where either side may be `NaN` (an `undefined` channel turns the sum into `NaN`). */
  function Plus(a: Option<int>, b: Option<int>): Option<int> {
    if a.Some? && b.Some? then Some(a.value + b.value) else None
  }

  /** The running sum of channel c over the records vs, `NaN` once a record lacks c. */
  function Total(vs: seq<Rgba>, c: Component): Option<int>
    decreases |vs|
  {
    if vs == [] then Some(0) else Plus(Total(vs[..|vs| - 1], c), Channel(vs[|vs| - 1], c))
  }

  /** `Math.round(a / b)` for b > 0: the nearest integer, a half rounding up. */
  function RoundQuotient(a: int, b: int): int
    requires b > 0
  {
    (2 * a + b) / (2 * b)
  }

  /** The quotient is within one half of a / b, the upper half excluded. */
  lemma RoundQuotientNearest(a: int, b: int)
    requires b > 0
    ensures 2 * b * RoundQuotient(a, b) - b <= 2 * a < 2 * b * RoundQuotient(a, b) + b
  {
    var q := RoundQuotient(a, b);
    assert 2 * a + b == q * (2 * b) + (2 * a + b) % (2 * b);
  }

  /** No other integer is within that half: the rounding is determined. */
  lemma RoundQuotientUnique(a: int, b: int, q: int)
    requires b > 0 && 2 * b * q - b <= 2 * a < 2 * b * q + b
    ensures RoundQuotient(a, b) == q
  {
    DivModUnique(2 * a + b, 2 * b, q, 2 * a + b - 2 * b * q);
  }

  /** `Math.round(sum / count)`: `NaN` for a `NaN` sum and for the 0 / 0 of an empty cell. */
  function RoundedMean(sum: Option<int>, count: nat): Option<int> {
    if sum.None? || count == 0 then None else Some(RoundQuotient(sum.value, count))
  }

  /** The accumulators r, g, b and count of `getAverageColor`. */
  datatype Tally = Tally(r: Option<int>, g: Option<int>, b: Option<int>, count: nat)

  /** One pass of the loop body: `r += red; g += green; b += blue; count++`. */
  function Add(t: Tally, v: Rgba): Tally {
    Tally(Plus(t.r, Channel(v, Red)), Plus(t.g, Channel(v, Green)), Plus(t.b, Channel(v, Blue)), t.count + 1)
  }

  /** The accumulators after the records vs. */
  function TallyOf(vs: seq<Rgba>): Tally {
    Tally(Total(vs, Red), Total(vs, Green), Total(vs, Blue), |vs|)
  }

  lemma TallyStep(vs: seq<Rgba>, v: Rgba)
    ensures TallyOf(vs + [v]) == Add(TallyOf(vs), v)
  {
    assert (vs + [v])[..|vs|] == vs;
  }

  /** An average colour; a `NaN` component is `None`. */
  datatype Color = Color(r: Option<int>, g: Option<int>, b: Option<int>)

  /** The colour `getAverageColor` returns for the records vs. */
  function AverageOf(vs: seq<Rgba>): Color {
    var t := TallyOf(vs);
    Color(RoundedMean(t.r, t.count), RoundedMean(t.g, t.count), RoundedMean(t.b, t.count))
  }

  /** The sum of c is a number exactly when every record has c. */
  lemma {:induction false} TotalDefined(vs: seq<Rgba>, c: Component)
    ensures Total(vs, c).Some? <==> forall i :: 0 <= i < |vs| ==> Channel(vs[i], c).Some?
    decreases |vs|
  {
    if vs != [] {
      var n := |vs| - 1;
      TotalDefined(vs[..n], c);
      assert forall i :: 0 <= i < n ==> vs[..n][i] == vs[i];
    }
  }

  /** Values of c between lo and hi sum to between |vs| * lo and |vs| * hi. */
  lemma {:induction false} TotalBounds(vs: seq<Rgba>, c: Component, lo: int, hi: int)
    requires forall i :: 0 <= i < |vs| ==> Channel(vs[i], c).Some? && lo <= Channel(vs[i], c).value <= hi
    ensures Total(vs, c).Some? && |vs| * lo <= Total(vs, c).value <= |vs| * hi
    decreases |vs|
  {
    if vs != [] {
      var n := |vs| - 1;
      assert forall i :: 0 <= i < n ==> vs[..n][i] == vs[i];
      TotalBounds(vs[..n], c, lo, hi);
      MulSucc(n, lo);
      MulSucc(n, hi);
    }
  }

  /** Rounding the mean of n values between lo and hi stays between lo and hi. */
  lemma RoundQuotientBetween(sum: int, n: int, lo: int, hi: int)
    requires n > 0 && n * lo <= sum <= n * hi
    ensures lo <= RoundQuotient(sum, n) <= hi
  {
    var q := RoundQuotient(sum, n);
    RoundQuotientNearest(sum, n);
    if q > hi {
      MulAtLeast(q - hi, n);
      assert false;
    }
    if q < lo {
      MulAtLeast(lo - q, n);
      assert false;
    }
  }

  /** The rounded mean of values between lo and hi is itself between lo and hi. */
  lemma MeanBounds(vs: seq<Rgba>, c: Component, lo: int, hi: int)
    requires |vs| > 0
    requires forall i :: 0 <= i < |vs| ==> Channel(vs[i], c).Some? && lo <= Channel(vs[i], c).value <= hi
    ensures RoundedMean(Total(vs, c), |vs|).Some?
    ensures lo <= RoundedMean(Total(vs, c), |vs|).value <= hi
  {
    TotalBounds(vs, c, lo, hi);
    RoundQuotientBetween(Total(vs, c).value, |vs|, lo, hi);
  }

  /** The record v has colour (r, g, b). */
  predicate Colored(v: Rgba, r: int, g: int, b: int) {
    v.r == Some(r) && v.g == Some(g) && v.b == Some(b)
  }

  /** A cell of one colour averages to that colour. */
  lemma AverageOfUniform(vs: seq<Rgba>, r: int, g: int, b: int)
    requires |vs| > 0
    requires forall i :: 0 <= i < |vs| ==> Colored(vs[i], r, g, b)
    ensures AverageOf(vs) == Color(Some(r), Some(g), Some(b))
  {
    MeanBounds(vs, Red, r, r);
    MeanBounds(vs, Green, g, g);
    MeanBounds(vs, Blue, b, b);
  }

  /** A record without channel c makes that component `NaN`, and so does an empty cell. */
  lemma AverageUndefined(vs: seq<Rgba>, c: Component)
    requires |vs| == 0 || exists i :: 0 <= i < |vs| && Channel(vs[i], c).None?
    ensures c == Red ==> AverageOf(vs).r.None?
    ensures c == Green ==> AverageOf(vs).g.None?
    ensures c == Blue ==> AverageOf(vs).b.None?
  {
    TotalDefined(vs, c);
  }

  // ---------------------------------------------------------------- getEntropyWithColor

  /** `Math.round(v / s) * s` for a positive integer sensitivity s; `NaN` stays `NaN`. */
  function Quantize(v: Option<int>, s: int): Option<int>
    requires s > 0
  {
    match v
    case None => None
    case Some(n) => Some(RoundQuotient(n, s) * s)
  }

  /** Quantising gives the multiple of s nearest to v, a half rounding up. */
  lemma QuantizeNearest(v: int, s: int)
    requires s > 0
    ensures Quantize(Some(v), s).Some?
    ensures var m := Quantize(Some(v), s).value; m % s == 0 && -s <= 2 * (v - m) < s
  {
    var q := RoundQuotient(v, s);
    RoundQuotientNearest(v, s);
    DivModUnique(q * s, s, q, 0);
  }

  /** With sensitivity 1 quantising changes nothing. */
  lemma QuantizeByOne(v: Option<int>)
    ensures Quantize(v, 1) == v
  {
    if v.Some? {
      RoundQuotientUnique(v.value, 1, v.value);
    }
  }

  /** The key `${r},${g},${b}` of the colour map. Distinct numbers render distinctly and `NaN`
      renders as none of them, so the string key identifies exactly this triple. */
  datatype ColorKey = ColorKey(r: Option<int>, g: Option<int>, b: Option<int>)

  function KeyOf(p: Rgba, s: int): ColorKey
    requires s > 0
  {
    ColorKey(Quantize(Channel(p, Red), s), Quantize(Channel(p, Green), s), Quantize(Channel(p, Blue), s))
  }

  /** The key of every record, in order. */
  function KeysOf(vs: seq<Rgba>, s: int): (r: seq<ColorKey>)
    requires s > 0
    ensures |r| == |vs| && forall i :: 0 <= i < |vs| ==> r[i] == KeyOf(vs[i], s)
  {
    seq(|vs|, i requires 0 <= i < |vs| => KeyOf(vs[i], s))
  }

  /** An entry of the colour map, which keeps its keys in insertion order. */
  datatype Bucket = Bucket(key: ColorKey, count: nat)

  /** The position of key k in the map, if it is there. */
  function Find(h: seq<Bucket>, k: ColorKey): (r: Option<nat>)
    ensures r.Some? ==> r.value < |h| && h[r.value].key == k && forall j :: 0 <= j < r.value ==> h[j].key != k
    ensures r.None? ==> forall j :: 0 <= j < |h| ==> h[j].key != k
  {
    if h == [] then None
    else if h[0].key == k then Some(0)
    else
      match Find(h[1..], k)
      case None => None
      case Some(i) => Some(i + 1)
  }

  /** `colorCounts.set(key, (colorCounts.get(key) || 0) + 1)`: an existing key keeps its
      place and counts one more, a new key is appended with count 1. */
  function Bump(h: seq<Bucket>, k: ColorKey): seq<Bucket> {
    match Find(h, k)
    case Some(i) => h[i := Bucket(k, h[i].count + 1)]
    case None => h + [Bucket(k, 1)]
  }

  /** The colour map after counting the keys ks in order. */
  function Histogram(ks: seq<ColorKey>): seq<Bucket>
    decreases |ks|
  {
    if ks == [] then [] else Bump(Histogram(ks[..|ks| - 1]), ks[|ks| - 1])
  }

  /** `colorCounts.get(k) || 0`. */
  function Count(h: seq<Bucket>, k: ColorKey): nat {
    match Find(h, k)
    case Some(i) => h[i].count
    case None => 0
  }

  /** No key appears twice. */
  predicate DistinctKeys(h: seq<Bucket>) {
    forall i, j :: 0 <= i < j < |h| ==> h[i].key != h[j].key
  }

  /** The sum of the counts. */
  function CountSum(h: seq<Bucket>): nat
    decreases |h|
  {
    if h == [] then 0 else CountSum(h[..|h| - 1]) + h[|h| - 1].count
  }

  lemma {:induction false} CountSumUpdate(h: seq<Bucket>, i: int, b: Bucket)
    requires 0 <= i < |h|
    ensures CountSum(h[i := b]) == CountSum(h) - h[i].count + b.count
    decreases |h|
  {
    var n := |h| - 1;
    assert h[i := b][..n] == if i == n then h[..n] else h[..n][i := b];
    if i < n {
      CountSumUpdate(h[..n], i, b);
    }
  }

  /** The position lookup is characterised by its contract: the first position holding k,
      or none when no position does. */
  lemma FindIs(h: seq<Bucket>, k: ColorKey, r: Option<nat>)
    requires r.Some? ==> r.value < |h| && h[r.value].key == k && forall j :: 0 <= j < r.value ==> h[j].key != k
    requires r.None? ==> forall j :: 0 <= j < |h| ==> h[j].key != k
    ensures Find(h, k) == r
  {
    var f := Find(h, k);
    if r.Some? {
      assert f.Some?;
      assert !(f.value < r.value);
      assert !(r.value < f.value);
    }
  }

  /** Bumping keeps keys distinct and counts positive, adds one to the total and at most one
      bucket. */
  lemma BumpShape(h: seq<Bucket>, k: ColorKey)
    requires DistinctKeys(h) && forall i :: 0 <= i < |h| ==> h[i].count >= 1
    ensures DistinctKeys(Bump(h, k)) && forall i :: 0 <= i < |Bump(h, k)| ==> Bump(h, k)[i].count >= 1
    ensures CountSum(Bump(h, k)) == CountSum(h) + 1
    ensures |Bump(h, k)| <= |h| + 1
  {
    match Find(h, k)
    case Some(i) =>
      CountSumUpdate(h, i, Bucket(k, h[i].count + 1));
    case None =>
      var h2 := h + [Bucket(k, 1)];
      assert h2[..|h|] == h;
  }

  /** One count moves: the bumped key counts one more and every other key as before. */
  lemma BumpCount(h: seq<Bucket>, k: ColorKey, k2: ColorKey)
    requires DistinctKeys(h)
    ensures Count(Bump(h, k), k2) == Count(h, k2) + if k2 == k then 1 else 0
  {
    var h2 := Bump(h, k);
    match Find(h, k)
    case Some(i) =>
      assert h2 == h[i := Bucket(k, h[i].count + 1)];
      FindIs(h2, k2, Find(h, k2));
    case None =>
      assert h2 == h + [Bucket(k, 1)];
      if k2 == k {
        FindIs(h2, k2, Some(|h|));
      } else {
        FindIs(h2, k2, Find(h, k2));
      }
  }

  /** The colour map's keys are distinct, its counts positive and summing to the number of
      keys counted, and it has no more buckets than keys. */
  lemma {:induction false} HistogramShape(ks: seq<ColorKey>)
    ensures DistinctKeys(Histogram(ks))
    ensures forall i :: 0 <= i < |Histogram(ks)| ==> Histogram(ks)[i].count >= 1
    ensures CountSum(Histogram(ks)) == |ks|
    ensures |Histogram(ks)| <= |ks|
    decreases |ks|
  {
    if ks != [] {
      HistogramShape(ks[..|ks| - 1]);
      BumpShape(Histogram(ks[..|ks| - 1]), ks[|ks| - 1]);
    }
  }

  /** The count of a key in the colour map is its multiplicity among the keys counted. */
  lemma {:induction false} HistogramCount(ks: seq<ColorKey>, k: ColorKey)
    ensures Count(Histogram(ks), k) == multiset(ks)[k]
    decreases |ks|
  {
    if ks != [] {
      var n := |ks| - 1;
      HistogramShape(ks[..n]);
      HistogramCount(ks[..n], k);
      BumpCount(Histogram(ks[..n]), ks[n], k);
      assert ks == ks[..n] + [ks[n]];
      assert multiset(ks) == multiset(ks[..n]) + multiset{ks[n]};
    }
  }

  /** The counts of the colour map are the multiplicities of the keys: every key counted
      appears once, with a positive count, and keys never counted have none. */
  lemma HistogramCounts(ks: seq<ColorKey>, k: ColorKey)
    ensures DistinctKeys(Histogram(ks))
    ensures forall i :: 0 <= i < |Histogram(ks)| ==> Histogram(ks)[i].count >= 1
    ensures Count(Histogram(ks), k) == multiset(ks)[k]
    ensures CountSum(Histogram(ks)) == |ks|
    ensures |Histogram(ks)| <= |ks|
  {
    HistogramShape(ks);
    HistogramCount(ks, k);
  }

  /** The colour map holds exactly the keys counted. */
  lemma HistogramKeys(ks: seq<ColorKey>, k: ColorKey)
    ensures (exists i :: 0 <= i < |Histogram(ks)| && Histogram(ks)[i].key == k) <==> k in ks
  {
    HistogramCounts(ks, k);
    var h := Histogram(ks);
    if k in ks {
      assert multiset(ks)[k] > 0;
      assert Find(h, k).Some?;
    }
    if exists i :: 0 <= i < |h| && h[i].key == k {
      assert Find(h, k).Some?;
      assert multiset(ks)[k] > 0;
    }
  }

  /** n equal keys make one bucket of n. */
  lemma {:induction false} HistogramUniform(ks: seq<ColorKey>, k: ColorKey)
    requires |ks| > 0 && forall i :: 0 <= i < |ks| ==> ks[i] == k
    ensures Histogram(ks) == [Bucket(k, |ks|)]
    decreases |ks|
  {
    var n := |ks| - 1;
    if n > 0 {
      HistogramUniform(ks[..n], k);
    }
  }

  /** Pairwise distinct keys make one bucket of 1 each, in the order of the keys. */
  lemma {:induction false} HistogramDistinct(ks: seq<ColorKey>)
    requires forall i, j :: 0 <= i < j < |ks| ==> ks[i] != ks[j]
    ensures Histogram(ks) == seq(|ks|, i requires 0 <= i < |ks| => Bucket(ks[i], 1))
    decreases |ks|
  {
    if ks != [] {
      var n := |ks| - 1;
      var prefix := ks[..n];
      assert forall i, j :: 0 <= i < j < |prefix| ==> prefix[i] != prefix[j] by {
        assert forall i :: 0 <= i < n ==> prefix[i] == ks[i];
      }
      HistogramDistinct(prefix);
      var h := Histogram(prefix);
      assert forall j :: 0 <= j < n ==> h[j].key == ks[j] by {
        assert forall i :: 0 <= i < n ==> prefix[i] == ks[i];
      }
      assert Find(h, ks[n]).None?;
      var expected := seq(|ks|, i requires 0 <= i < |ks| => Bucket(ks[i], 1));
      assert h + [Bucket(ks[n], 1)] == expected;
    }
  }

  /** Counting one more key. */
  lemma HistogramStep(ks: seq<ColorKey>, k: ColorKey)
    ensures Histogram(ks + [k]) == Bump(Histogram(ks), k)
  {
    assert (ks + [k])[..|ks|] == ks;
  }

  /** The reduce of `getEntropyWithColor`: from 0, each bucket in map order subtracts
      p * log2(p) for p = count / total. `log2` stands for `Math.log2`. */
  function Entropy(h: seq<Bucket>, total: nat, log2: real -> real): real
    requires total > 0
    decreases |h|
  {
    if h == [] then 0.0
    else
      var p := h[|h| - 1].count as real / total as real;
      Entropy(h[..|h| - 1], total, log2) - p * log2(p)
  }

  /** One bucket holding every pixel has entropy 0. */
  lemma EntropySingle(k: ColorKey, n: nat, log2: real -> real)
    requires n > 0 && log2(1.0) == 0.0
    ensures Entropy([Bucket(k, n)], n, log2) == 0.0
  {
    assert [Bucket(k, n)][..0] == [];
    assert n as real / n as real == 1.0;
  }

  /** m buckets of 1 out of n pixels have entropy -(m / n) * log2(1 / n). */
  lemma {:induction false} EntropyUnits(h: seq<Bucket>, n: nat, log2: real -> real)
    requires n > 0 && forall i :: 0 <= i < |h| ==> h[i].count == 1
    ensures Entropy(h, n, log2) == -((|h| as real / n as real) * log2(1.0 / n as real))
    decreases |h|
  {
    if h != [] {
      var m := |h| - 1;
      EntropyUnits(h[..m], n, log2);
      var l := log2(1.0 / n as real);
      assert (m as real / n as real) * l + (1.0 / n as real) * l == ((m as real + 1.0) / n as real) * l;
    }
  }

  /** The colour map of the records vs and its entropy, as `getEntropyWithColor` computes
      them after the region read; an empty region has entropy 0. */
  function EntropyOf(vs: seq<Rgba>, s: int, log2: real -> real): real
    requires s > 0
  {
    if |vs| == 0 then 0.0 else Entropy(Histogram(KeysOf(vs, s)), |vs|, log2)
  }

  /** A region of one colour has entropy 0, whatever the sensitivity. */
  lemma EntropyOfUniform(vs: seq<Rgba>, s: int, log2: real -> real)
    requires s > 0 && log2(1.0) == 0.0
    requires forall i :: 0 <= i < |vs| ==> KeyOf(vs[i], s) == KeyOf(vs[0], s)
    ensures EntropyOf(vs, s, log2) == 0.0
  {
    if |vs| > 0 {
      HistogramUniform(KeysOf(vs, s), KeyOf(vs[0], s));
      EntropySingle(KeyOf(vs[0], s), |vs|, log2);
    }
  }

  /** With sensitivity 1 the keys are the colours themselves. */
  lemma KeyOfByOne(p: Rgba)
    ensures KeyOf(p, 1) == ColorKey(Channel(p, Red), Channel(p, Green), Channel(p, Blue))
  {
    QuantizeByOne(Channel(p, Red));
    QuantizeByOne(Channel(p, Green));
    QuantizeByOne(Channel(p, Blue));
  }

  /** Four records of four different colours, with sensitivity 1: four buckets of 1, and an
      entropy of 2 bits. */
  lemma EntropyOfFourColors(vs: seq<Rgba>, log2: real -> real)
    requires |vs| == 4 && log2(0.25) == -2.0
    requires forall i, j :: 0 <= i < j < 4 ==>
               (Channel(vs[i], Red), Channel(vs[i], Green), Channel(vs[i], Blue)) !=
               (Channel(vs[j], Red), Channel(vs[j], Green), Channel(vs[j], Blue))
    ensures Histogram(KeysOf(vs, 1)) == seq(4, i requires 0 <= i < 4 => Bucket(KeyOf(vs[i], 1), 1))
    ensures EntropyOf(vs, 1, log2) == 2.0
  {
    var ks := KeysOf(vs, 1);
    forall i | 0 <= i < 4
      ensures ks[i] == ColorKey(Channel(vs[i], Red), Channel(vs[i], Green), Channel(vs[i], Blue))
    {
      KeyOfByOne(vs[i]);
    }
    HistogramDistinct(ks);
    EntropyUnits(Histogram(ks), 4, log2);
  }

  // ---------------------------------------------------------------- getRectangle

  /** The bounding box record of `getRectangle`. */
  datatype Rectangle = Rectangle(xMin: int, xMax: int, yMin: int, yMax: int, width: int, height: int)

  /** `getRectangle` as written: xMax is taken from y, not x. */
  function RectangleAsWritten(c: Rect): (r: Rectangle)
    ensures r.xMin == c.x && r.yMin == c.y && r.yMax == c.y + c.height && r.xMax == c.y + c.width
    ensures r.width == c.width && r.height == c.height
  {
    Rectangle(c.x, c.y + c.width, c.y, c.y + c.height, c.width, c.height)
  }

  /** The cell at x = 2, y = 0 of size 2 × 2 gets xMin = xMax = 2: a box that
      contains none of its four pixels. */
  lemma RectangleAsWrittenMissesPixels()
    ensures var c := Rect(2, 0, 2, 2);
            var r := RectangleAsWritten(c);
            Point(2, 0) in Pixels(c) && !(r.xMin <= 2 < r.xMax)
  {
    RowsMembership(2, 4, 0, 2, Point(2, 0));
  }

  /** The bounding box the record describes: xMax = x + width. */
  function RectangleOf(c: Rect): Rectangle {
    Rectangle(c.x, c.x + c.width, c.y, c.y + c.height, c.width, c.height)
  }

  /** The box spans the cell's extents and holds exactly the cell's pixels. */
  lemma RectangleOfCovers(c: Rect, p: Point)
    ensures RectangleOf(c).xMax - RectangleOf(c).xMin == c.width
    ensures RectangleOf(c).yMax - RectangleOf(c).yMin == c.height
    ensures var r := RectangleOf(c);
            p in Pixels(c) <==> r.xMin <= p.x < r.xMax && r.yMin <= p.y < r.yMax
  {
    RowsMembership(c.x, c.x + c.width, c.y, c.y + c.height, p);
  }

  // ---------------------------------------------------------------- the cell's results

  /** `getAverageColor` of the cell c: the average of its records, or the first failing read. */
  function CellAverage(d: ImageData, c: Rect): Result<Color> {
    match Region(d, c.x, c.x + c.width, c.y, c.y + c.height)
    case Err(e) => Err(e)
    case Ok(vs) => Ok(AverageOf(vs))
  }

  /** `getEntropyWithColor` of the cell c: the entropy of its colour map, 0 for a cell without
      pixels, or the failure of the region read. */
  function CellEntropy(d: ImageData, c: Rect, s: int, log2: real -> real): Result<real>
    requires s > 0
  {
    match Region(d, c.x, c.x + c.width, c.y, c.y + c.height)
    case Err(e) => Err(e)
    case Ok(vs) => Ok(EntropyOf(vs, s, log2))
  }

  /** A cell of no width or no height reads no pixel and has entropy 0. */
  lemma EmptyCellEntropy(d: ImageData, c: Rect, s: int, log2: real -> real)
    requires s > 0 && (c.width <= 0 || c.height <= 0)
    ensures CellEntropy(d, c, s, log2) == Ok(0.0)
  {
    RowsLength(c.x, c.x + c.width, c.y, c.y + c.height);
  }

  /** The records read, as the pixel records an image holds. */
  function Records(vs: seq<Rgba>): (r: seq<PixelValue>)
    ensures |r| == |vs| && forall i :: 0 <= i < |vs| ==> Project(r[i]) == vs[i]
  {
    seq(|vs|, i requires 0 <= i < |vs| => Record(vs[i]))
  }

  /** `getImageData` of the cell c: a PNG description of size 0 with the store's channels, the
      cell's extents and its records in row-major order. */
  function CellImage(d: ImageData, c: Rect): Result<ImageData> {
    match Region(d, c.x, c.x + c.width, c.y, c.y + c.height)
    case Err(e) => Err(e)
    case Ok(vs) => Ok(ImageData(ImageMetadata("png", 0, d.imageMetadata.channels), c.width, c.height, Dense(Records(vs))))
  }

  /** The average of a cell whose reads all succeed, from the tally of its records. */
  lemma AverageFromTally(d: ImageData, c: Rect, vs: seq<Rgba>, t: Tally)
    requires Region(d, c.x, c.x + c.width, c.y, c.y + c.height) == Ok(vs) && t == TallyOf(vs)
    ensures CellAverage(d, c) == Ok(Color(RoundedMean(t.r, t.count), RoundedMean(t.g, t.count), RoundedMean(t.b, t.count)))
  {
  }

  /** A failing read fails the average with it. */
  lemma AverageFails(d: ImageData, c: Rect, e: Error)
    requires Region(d, c.x, c.x + c.width, c.y, c.y + c.height) == Err(e)
    ensures CellAverage(d, c) == Err(e)
  {
  }

  /** A failing read fails the image with it. */
  lemma ImageFails(d: ImageData, c: Rect, e: Error)
    requires Region(d, c.x, c.x + c.width, c.y, c.y + c.height) == Err(e)
    ensures CellImage(d, c) == Err(e)
  {
  }

  /** The image of a cell whose reads all succeed, from its records. */
  lemma ImageFromRecords(d: ImageData, c: Rect, vs: seq<Rgba>)
    requires Region(d, c.x, c.x + c.width, c.y, c.y + c.height) == Ok(vs)
    ensures CellImage(d, c) == Ok(ImageData(ImageMetadata("png", 0, d.imageMetadata.channels), c.width, c.height, Dense(Records(vs))))
  {
  }

  /** A non-empty cell whose every pixel reads with the same r, g and b averages to that
      colour. */
  lemma CellAverageUniform(d: ImageData, c: Rect, r: int, g: int, b: int)
    requires c.width > 0 && c.height > 0
    requires forall p :: InRect(p, c.x, c.x + c.width, c.y, c.y + c.height) ==>
               PixelAt(d, p.x, p.y).Ok? && Colored(PixelAt(d, p.x, p.y).value, r, g, b)
    ensures CellAverage(d, c) == Ok(Color(Some(r), Some(g), Some(b)))
  {
    RegionColored(d, c, r, g, b);
    var vs := Region(d, c.x, c.x + c.width, c.y, c.y + c.height).value;
    AverageOfUniform(vs, r, g, b);
    AverageFromTally(d, c, vs, TallyOf(vs));
  }

  /** A non-empty cell of colour (r, g, b) reads as at least one record, all of that colour. */
  lemma RegionColored(d: ImageData, c: Rect, r: int, g: int, b: int)
    requires c.width > 0 && c.height > 0
    requires forall p :: InRect(p, c.x, c.x + c.width, c.y, c.y + c.height) ==>
               PixelAt(d, p.x, p.y).Ok? && Colored(PixelAt(d, p.x, p.y).value, r, g, b)
    ensures Region(d, c.x, c.x + c.width, c.y, c.y + c.height).Ok?
    ensures var vs := Region(d, c.x, c.x + c.width, c.y, c.y + c.height).value;
            |vs| > 0 && forall i :: 0 <= i < |vs| ==> Colored(vs[i], r, g, b)
  {
    PixelsColored(d, c, r, g, b);
    ReadsColored(d, Pixels(c), r, g, b);
    RowsNonEmpty(c.x, c.x + c.width, c.y, c.y + c.height);
  }

  /** Every pixel of a cell of colour (r, g, b), in visiting order, reads with that colour. */
  lemma PixelsColored(d: ImageData, c: Rect, r: int, g: int, b: int)
    requires forall p :: InRect(p, c.x, c.x + c.width, c.y, c.y + c.height) ==>
               PixelAt(d, p.x, p.y).Ok? && Colored(PixelAt(d, p.x, p.y).value, r, g, b)
    ensures forall i :: 0 <= i < |Pixels(c)| ==>
              PixelAt(d, Pixels(c)[i].x, Pixels(c)[i].y).Ok? && Colored(PixelAt(d, Pixels(c)[i].x, Pixels(c)[i].y).value, r, g, b)
  {
    var ps := Pixels(c);
    forall i | 0 <= i < |ps|
      ensures PixelAt(d, ps[i].x, ps[i].y).Ok? && Colored(PixelAt(d, ps[i].x, ps[i].y).value, r, g, b)
    {
      RowsMembership(c.x, c.x + c.width, c.y, c.y + c.height, ps[i]);
    }
  }

  /** Points that all read with colour (r, g, b) read as records of that colour. */
  lemma ReadsColored(d: ImageData, ps: seq<Point>, r: int, g: int, b: int)
    requires forall i :: 0 <= i < |ps| ==> PixelAt(d, ps[i].x, ps[i].y).Ok? && Colored(PixelAt(d, ps[i].x, ps[i].y).value, r, g, b)
    ensures ReadAll(d, ps).Ok? && |ReadAll(d, ps).value| == |ps|
    ensures forall i :: 0 <= i < |ps| ==> Colored(ReadAll(d, ps).value[i], r, g, b)
  {
    ReadAllSucceeds(d, ps);
  }

  /** The image of a cell whose reads all succeed holds one record per read, in order, each
      reading back as that read. */
  lemma CellImageOf(d: ImageData, c: Rect, vs: seq<Rgba>)
    requires Region(d, c.x, c.x + c.width, c.y, c.y + c.height) == Ok(vs)
    ensures CellImage(d, c).Ok?
    ensures var m := CellImage(d, c).value;
            m.width == c.width && m.height == c.height && |m.pixelData| == |vs| &&
            forall i :: 0 <= i < |vs| ==> m.pixelData[i].Some? && Project(m.pixelData[i].value) == vs[i]
  {
    ImageFromRecords(d, c, vs);
  }

  /** A cell inside a complete image reads successfully, one value per pixel. */
  lemma CellRegion(d: ImageData, c: Rect) returns (vs: seq<Rgba>)
    requires 0 <= c.x && 0 <= c.width && c.x + c.width <= d.width
    requires 0 <= c.y && 0 <= c.height && c.y + c.height <= d.height
    requires Complete(d)
    ensures Region(d, c.x, c.x + c.width, c.y, c.y + c.height) == Ok(vs)
    ensures |vs| == c.width * c.height
  {
    RegionInBounds(d, c.x, c.x + c.width, c.y, c.y + c.height);
    vs := Region(d, c.x, c.x + c.width, c.y, c.y + c.height).value;
    assert c.x + c.width - c.x == c.width && c.y + c.height - c.y == c.height;
  }

  /** The read of a cell's pixel (px, py) is the value at its row-major position in the cell. */
  lemma CellRegionEntry(d: ImageData, c: Rect, vs: seq<Rgba>, px: int, py: int)
    requires Region(d, c.x, c.x + c.width, c.y, c.y + c.height) == Ok(vs)
    requires InRect(Point(px, py), c.x, c.x + c.width, c.y, c.y + c.height)
    ensures 0 <= (py - c.y) * c.width + (px - c.x) < |vs|
    ensures PixelAt(d, px, py) == Ok(vs[(py - c.y) * c.width + (px - c.x)])
  {
    RegionEntry(d, c.x, c.x + c.width, c.y, c.y + c.height, px, py);
    assert c.x + c.width - c.x == c.width;
  }

  /** An image holding one record per value reads each pixel as the value at its slot. */
  lemma RecordsRead(m: ImageData, vs: seq<Rgba>, x: int, y: int)
    requires |m.pixelData| == |vs|
    requires forall i :: 0 <= i < |vs| ==> m.pixelData[i].Some? && Project(m.pixelData[i].value) == vs[i]
    requires InBounds(m, x, y) && 0 <= y * m.width + x < |vs|
    ensures PixelAt(m, x, y) == Ok(vs[y * m.width + x])
  {
  }

  /** A cell inside a complete image yields an image of its own extents holding
      width * height records in which the cell's pixel (px, py) reads, at (px - x, py - y),
      exactly as it reads in the store. */
  lemma CellImageInside(d: ImageData, c: Rect, px: int, py: int)
    requires 0 <= c.x && 0 <= c.width && c.x + c.width <= d.width
    requires 0 <= c.y && 0 <= c.height && c.y + c.height <= d.height
    requires Complete(d)
    ensures CellImage(d, c).Ok?
    ensures var m := CellImage(d, c).value;
            m.width == c.width && m.height == c.height && |m.pixelData| == c.width * c.height
    ensures InRect(Point(px, py), c.x, c.x + c.width, c.y, c.y + c.height) ==>
              PixelAt(d, px, py).Ok? && PixelAt(CellImage(d, c).value, px - c.x, py - c.y) == PixelAt(d, px, py)
  {
    var vs := CellRegion(d, c);
    CellImageOf(d, c, vs);
    if InRect(Point(px, py), c.x, c.x + c.width, c.y, c.y + c.height) {
      CellRegionEntry(d, c, vs, px, py);
      RecordsRead(CellImage(d, c).value, vs, px - c.x, py - c.y);
    }
  }

  /** A cell over a pixel-record store. Its rectangle and its store never change. */
  class Cell {
    const x: int
    const y: int
    const width: int
    const height: int
    const adapter: NodeCanvasAdapter

    constructor (x: int, y: int, width: int, height: int, adapter: NodeCanvasAdapter)
      ensures this.x == x && this.y == y && this.width == width && this.height == height
      ensures this.adapter == adapter
    {
      this.x := x;
      this.y := y;
      this.width := width;
      this.height := height;
      this.adapter := adapter;
    }

    /** The rectangle the cell covers. */
    function Area(): Rect {
      Rect(x, y, width, height)
    }

    /** `hasPixels`: y from the cell's top down, x from its left across, stopping at the first
        pixel whose r is defined. */
    method HasPixels() returns (r: Result<bool>)
      ensures r == ScanHit(adapter.imageData, Pixels(Area()))
    {
      var py := y;
      assert Pixels(Area()) == Rows(x, x + width, py, y + height);
      while py < y + height
        invariant ScanHit(adapter.imageData, Pixels(Area())) == ScanHit(adapter.imageData, Rows(x, x + width, py, y + height))
        decreases y + height - py
      {
        var found := ScanRow(py);
        ScanRowsStep(adapter.imageData, x, x + width, py, y + height, found);
        if found != Ok(false) {
          return found;
        }
        py := py + 1;
      }
      ScanEnd(adapter.imageData, x, x + width, py, y + height);
      return Ok(false);
    }

    /** The inner loop of `hasPixels` over row py. Ok(false) means the row held no hit and the
        scan goes on. */
    method ScanRow(py: int) returns (found: Result<bool>)
      ensures found == ScanHit(adapter.imageData, Row(x, x + width, py))
    {
      var px := x;
      while px < x + width
        invariant ScanHit(adapter.imageData, Row(x, x + width, py)) == ScanHit(adapter.imageData, Row(px, x + width, py))
        decreases x + width - px
      {
        var v := adapter.GetChannelValues(px, py);
        ScanStep(adapter.imageData, px, x + width, py, v);
        if v.Err? {
          return Err(v.error);
        }
        if v.value.r.Some? {
          return Ok(true);
        }
        px := px + 1;
      }
      ScanEnd(adapter.imageData, px, x + width, py, py);
      return Ok(false);
    }

    /** `getAverageColor`: every pixel read in turn into the running sums and count, then each
        sum divided by the count and rounded. */
    method GetAverageColor() returns (r: Result<Color>)
      ensures r == CellAverage(adapter.imageData, Area())
    {
      var t := Tally(Some(0), Some(0), Some(0), 0);
      ghost var seen: seq<Rgba> := [];
      ThenUnit(seen, Region(adapter.imageData, x, x + width, y, y + height));
      var py := y;
      while py < y + height
        invariant Region(adapter.imageData, x, x + width, y, y + height) ==
                    Then(seen, ReadAll(adapter.imageData, Rows(x, x + width, py, y + height)))
        invariant t == TallyOf(seen)
        decreases y + height - py
      {
        var row;
        ghost var rowReads;
        row, rowReads := TallyRow(py, t, seen);
        RowsReadStep(adapter.imageData, x, x + width, py, y + height, seen, rowReads);
        if row.Err? {
          AverageFails(adapter.imageData, Area(), row.error);
          return Err(row.error);
        }
        t, seen := row.value, rowReads.value;
        py := py + 1;
      }
      RowsReadEnd(adapter.imageData, x, x + width, py, y + height, seen);
      AverageFromTally(adapter.imageData, Area(), seen, t);
      return Ok(Color(RoundedMean(t.r, t.count), RoundedMean(t.g, t.count), RoundedMean(t.b, t.count)));
    }

    /** The inner loop of `getAverageColor` over row py: the tally of the records seen so far
        (seen0) extended by those of the row, or the row's first failing read. `rowReads` is what
        the reads so far and those of the row make. */
    method TallyRow(py: int, t0: Tally, ghost seen0: seq<Rgba>) returns (r: Result<Tally>, ghost rowReads: Result<seq<Rgba>>)
      requires t0 == TallyOf(seen0)
      ensures rowReads == Then(seen0, ReadAll(adapter.imageData, Row(x, x + width, py)))
      ensures r.Err? == rowReads.Err? && (r.Err? ==> r.error == rowReads.error)
      ensures r.Ok? ==> r.value == TallyOf(rowReads.value)
    {
      var t := t0;
      ghost var seen := seen0;
      var px := x;
      while px < x + width
        invariant t == TallyOf(seen)
        invariant Then(seen0, ReadAll(adapter.imageData, Row(x, x + width, py))) ==
                    Then(seen, ReadAll(adapter.imageData, Row(px, x + width, py)))
        decreases x + width - px
      {
        var v := adapter.GetChannelValues(px, py);
        RowReadStep(adapter.imageData, px, x + width, py, seen, v);
        if v.Err? {
          return Err(v.error), Err(v.error);
        }
        TallyStep(seen, v.value);
        t := Add(t, v.value);
        seen := seen + [v.value];
        px := px + 1;
      }
      RowReadEnd(adapter.imageData, px, x + width, py, seen);
      return Ok(t), Ok(seen);
    }

    /** `getEntropyWithColor`: the region read, then the colour map counted pixel by pixel,
        then its entropy. `log2` stands for `Math.log2`; the sensitivity defaults to 1. */
    method GetEntropyWithColor(log2: real -> real, colorSensitivity: int := 1) returns (r: Result<real>)
      requires colorSensitivity > 0
      ensures r == CellEntropy(adapter.imageData, Area(), colorSensitivity, log2)
    {
      var pixels := adapter.GetChannelValuesForRegion(x, x + width, y, y + height);
      if pixels.Err? {
        return Err(pixels.error);
      }
      var totalPixels := |pixels.value|;
      if totalPixels == 0 {
        return Ok(0.0);
      }
      var colorCounts := CountColors(pixels.value, colorSensitivity);
      assert EntropyOf(pixels.value, colorSensitivity, log2) == Entropy(colorCounts, totalPixels, log2);
      return Ok(Entropy(colorCounts, totalPixels, log2));
    }

    /** The colour map of `getEntropyWithColor`: each pixel's quantised key counted in turn,
        a new key appended with count 1. */
    static method CountColors(pixels: seq<Rgba>, colorSensitivity: int) returns (colorCounts: seq<Bucket>)
      requires colorSensitivity > 0
      ensures colorCounts == Histogram(KeysOf(pixels, colorSensitivity))
    {
      colorCounts := [];
      var i := 0;
      while i < |pixels|
        invariant 0 <= i <= |pixels|
        invariant colorCounts == Histogram(KeysOf(pixels[..i], colorSensitivity))
      {
        var key := KeyOf(pixels[i], colorSensitivity);
        HistogramStep(KeysOf(pixels[..i], colorSensitivity), key);
        assert KeysOf(pixels[..i + 1], colorSensitivity) == KeysOf(pixels[..i], colorSensitivity) + [key];
        colorCounts := Bump(colorCounts, key);
        i := i + 1;
      }
      assert pixels[..i] == pixels;
    }

    /** `getRectangle`, as written: it is the intended box only when x and y coincide. */
    function GetRectangle(): (r: Rectangle)
      ensures r == RectangleAsWritten(Area())
      ensures r == RectangleOf(Area()) <==> x == y
    {
      RectangleAsWritten(Area())
    }

    /** `getRGBValuesForCoordinates`: a read of the store at image coordinates (not relative
        to the cell), refused outside the image. */
    function GetRGBValuesForCoordinates(px: int, py: int): (r: Result<Rgba>)
      reads adapter
      ensures r == Err(OutOfBounds) <==> !(0 <= px < adapter.imageData.width && 0 <= py < adapter.imageData.height)
      ensures r.Ok? ==> Entry(adapter.imageData, py * adapter.imageData.width + px).Some? &&
                        r.value == Project(Entry(adapter.imageData, py * adapter.imageData.width + px).value)
    {
      adapter.GetChannelValues(px, py)
    }

    /** `getImageData`: every pixel read in turn and pushed, then wrapped as an image of the
        cell's extents. */
    method GetImageData() returns (r: Result<ImageData>)
      ensures r == CellImage(adapter.imageData, Area())
    {
      var pixelData: seq<Rgba> := [];
      ThenUnit(pixelData, Region(adapter.imageData, x, x + width, y, y + height));
      var py := y;
      while py < y + height
        invariant Region(adapter.imageData, x, x + width, y, y + height) ==
                    Then(pixelData, ReadAll(adapter.imageData, Rows(x, x + width, py, y + height)))
        decreases y + height - py
      {
        var row := PushRow(py, pixelData);
        RowsReadStep(adapter.imageData, x, x + width, py, y + height, pixelData, row);
        if row.Err? {
          ImageFails(adapter.imageData, Area(), row.error);
          return Err(row.error);
        }
        pixelData := row.value;
        py := py + 1;
      }
      RowsReadEnd(adapter.imageData, x, x + width, py, y + height, pixelData);
      ImageFromRecords(adapter.imageData, Area(), pixelData);
      var channels := adapter.GetImageData().imageMetadata.channels;
      return Ok(ImageData(ImageMetadata("png", 0, channels), width, height, Dense(Records(pixelData))));
    }

    /** The inner loop of `getImageData` over row py: the records so far extended by those of
        the row, or the row's first failing read. */
    method PushRow(py: int, acc: seq<Rgba>) returns (r: Result<seq<Rgba>>)
      ensures r == Then(acc, ReadAll(adapter.imageData, Row(x, x + width, py)))
    {
      var pixelData := acc;
      var px := x;
      while px < x + width
        invariant Then(acc, ReadAll(adapter.imageData, Row(x, x + width, py))) ==
                    Then(pixelData, ReadAll(adapter.imageData, Row(px, x + width, py)))
        decreases x + width - px
      {
        var v := adapter.GetChannelValues(px, py);
        RowReadStep(adapter.imageData, px, x + width, py, pixelData, v);
        if v.Err? {
          return Err(v.error);
        }
        pixelData := pixelData + [v.value];
        px := px + 1;
      }
      RowReadEnd(adapter.imageData, px, x + width, py, pixelData);
      return Ok(pixelData);
    }
  }
}
