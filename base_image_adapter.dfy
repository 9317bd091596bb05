/** The flat-buffer pixel store: `BaseImageAdapter` in its revision over a
    `width × height` RGBA byte buffer, four bytes per pixel, row-major. This revision
    does no bounds checking: an index outside the buffer reads JavaScript `undefined`. */
module FlatBuffer {
  import opened Outcomes
  import opened Geometry

  /** An element of a `Uint8Array`. */
  newtype byte = b: int | 0 <= b < 256

  /** The adapter's `imageData`: its dimensions and its RGBA buffer. */
  datatype FlatImageData = FlatImageData(width: int, height: int, data: seq<byte>)

  /** The r, g and b read for one pixel; `None` is `undefined`. */
  datatype Rgb = Rgb(r: Option<byte>, g: Option<byte>, b: Option<byte>)

  /** The three planes a region read fills. */
  datatype RgbPlanes = RgbPlanes(r: array<byte>, g: array<byte>, b: array<byte>)

  /** `data[i]` on a `Uint8Array`: `undefined` for an index outside the buffer. */
  function ByteAt(data: seq<byte>, i: int): Option<byte> {
    if 0 <= i < |data| then Some(data[i]) else None
  }

  /** Storing a read value into a `Uint8Array`: `undefined` becomes 0. */
  function OrZero(v: Option<byte>): byte {
    if v.Some? then v.value else 0
  }

  /** Component k (0 = r, 1 = g, 2 = b) of a pixel read. */
  function Component(p: Rgb, k: nat): Option<byte>
    requires k < 3
  {
    if k == 0 then p.r else if k == 1 then p.g else p.b
  }

  /** A freshly allocated `Uint8Array(n)` holds n zeros. */
  function Zeros(n: int): seq<byte> {
    seq(Max0(n), _ => 0 as byte)
  }

  /** The offset of pixel (x, y)'s first byte: `(y * width + x) * 4`. */
  function PixelOffset(d: FlatImageData, x: int, y: int): int {
    (y * d.width + x) * 4
  }

  /** One channel of pixel (x, y): r, g and b are the bytes at offsets 0, 1 and 2 of the
      pixel's four bytes; any other channel name is refused. */
  function ChannelValue(d: FlatImageData, x: int, y: int, channel: string): (r: Result<Option<byte>>)
    ensures r.Err? <==> channel !in {"r", "g", "b"}
    ensures r.Err? ==> r.error == InvalidChannel
    ensures channel == "r" ==> r == Ok(ByteAt(d.data, PixelOffset(d, x, y)))
    ensures channel == "g" ==> r == Ok(ByteAt(d.data, PixelOffset(d, x, y) + 1))
    ensures channel == "b" ==> r == Ok(ByteAt(d.data, PixelOffset(d, x, y) + 2))
  {
    var index := PixelOffset(d, x, y);
    if channel == "r" then Ok(ByteAt(d.data, index))
    else if channel == "g" then Ok(ByteAt(d.data, index + 1))
    else if channel == "b" then Ok(ByteAt(d.data, index + 2))
    else Err(InvalidChannel)
  }

  /** All three channels of pixel (x, y), field by field what ChannelValue reads. */
  function ChannelValues(d: FlatImageData, x: int, y: int): (r: Rgb)
    ensures ChannelValue(d, x, y, "r") == Ok(r.r)
    ensures ChannelValue(d, x, y, "g") == Ok(r.g)
    ensures ChannelValue(d, x, y, "b") == Ok(r.b)
  {
    var index := PixelOffset(d, x, y);
    Rgb(ByteAt(d.data, index), ByteAt(d.data, index + 1), ByteAt(d.data, index + 2))
  }

  /** Plane k of the points ps, as the region read stores it: entry i is component k of
      the read of ps[i], with `undefined` stored as 0. */
  function Plane(d: FlatImageData, ps: seq<Point>, k: nat): (r: seq<byte>)
    requires k < 3
    ensures |r| == |ps|
    ensures forall i :: 0 <= i < |ps| ==> r[i] == OrZero(Component(ChannelValues(d, ps[i].x, ps[i].y), k))
  {
    if ps == [] then []
    else [OrZero(Component(ChannelValues(d, ps[0].x, ps[0].y), k))] + Plane(d, ps[1..], k)
  }

  /** Three planes of length n after the region read has stored the first `index` points of
      `all`: those entries hold the points' reads and the rest are still zeros. */
  ghost predicate Filled(d: FlatImageData, all: seq<Point>, index: int, r: seq<byte>, g: seq<byte>, b: seq<byte>, n: int) {
    && 0 <= index <= |all|
    && r == Plane(d, all[..index], 0) + Zeros(n - index)
    && g == Plane(d, all[..index], 1) + Zeros(n - index)
    && b == Plane(d, all[..index], 2) + Zeros(n - index)
  }

  /** Storing the read of the next point advances the filled prefix by one. */
  lemma FillStep(d: FlatImageData, all: seq<Point>, index: int, r: seq<byte>, g: seq<byte>, b: seq<byte>, n: int, p: Rgb)
    requires Filled(d, all, index, r, g, b, n) && index < |all| <= n
    requires p == ChannelValues(d, all[index].x, all[index].y)
    ensures index < |r| == |g| == |b|
    ensures Filled(d, all, index + 1, r[index := OrZero(p.r)], g[index := OrZero(p.g)], b[index := OrZero(p.b)], n)
  {
    PlaneStep(d, all, index, r, n, 0);
    PlaneStep(d, all, index, g, n, 1);
    PlaneStep(d, all, index, b, n, 2);
  }

  /** One plane of FillStep. */
  lemma PlaneStep(d: FlatImageData, all: seq<Point>, index: int, s: seq<byte>, n: int, k: nat)
    requires k < 3 && 0 <= index < |all| <= n
    requires s == Plane(d, all[..index], k) + Zeros(n - index)
    ensures index < |s|
    ensures s[index := OrZero(Component(ChannelValues(d, all[index].x, all[index].y), k))]
              == Plane(d, all[..index + 1], k) + Zeros(n - (index + 1))
  {
    assert all[..index + 1][..index] == all[..index];
  }

  /** Once every point is stored the planes are the region's planes padded with zeros. */
  lemma FillEnd(d: FlatImageData, all: seq<Point>, r: seq<byte>, g: seq<byte>, b: seq<byte>, n: int)
    requires Filled(d, all, |all|, r, g, b, n)
    ensures r == Plane(d, all, 0) + Zeros(n - |all|)
    ensures g == Plane(d, all, 1) + Zeros(n - |all|)
    ensures b == Plane(d, all, 2) + Zeros(n - |all|)
  {
    assert all[..|all|] == all;
  }

  /** Plane k of the region [xStart, xEnd) × [yStart, yEnd) as the region read returns it:
      the reads in row-major order, then zeros up to the allocated length
      (xEnd - xStart) * (yEnd - yStart). */
  function RegionPlane(d: FlatImageData, xStart: int, xEnd: int, yStart: int, yEnd: int, k: nat): seq<byte>
    requires k < 3
  {
    var ps := Rows(xStart, xEnd, yStart, yEnd);
    Plane(d, ps, k) + Zeros((xEnd - xStart) * (yEnd - yStart) - |ps|)
  }

  /** The planes a region read returns hold (xEnd - xStart) * (yEnd - yStart) entries
      whenever that length is accepted. */
  lemma RegionPlaneLength(d: FlatImageData, xStart: int, xEnd: int, yStart: int, yEnd: int, k: nat)
    requires k < 3 && (xEnd - xStart) * (yEnd - yStart) >= 0
    ensures |RegionPlane(d, xStart, xEnd, yStart, yEnd, k)| == (xEnd - xStart) * (yEnd - yStart)
  {
    RowsFit(xStart, xEnd, yStart, yEnd);
  }

  /** Entry (y - yStart) * (xEnd - xStart) + (x - xStart) of plane k is component k of the
      read of pixel (x, y): y is the outer loop and x the inner one. */
  lemma RegionPlaneEntry(d: FlatImageData, xStart: int, xEnd: int, yStart: int, yEnd: int, x: int, y: int, k: nat)
    requires k < 3 && xStart <= x < xEnd && yStart <= y < yEnd
    ensures var p, i := RegionPlane(d, xStart, xEnd, yStart, yEnd, k), (y - yStart) * (xEnd - xStart) + (x - xStart);
            0 <= i < |p| && p[i] == OrZero(Component(ChannelValues(d, x, y), k))
  {
    RowsIndex(xStart, xEnd, yStart, yEnd, x, y);
  }

  class BaseImageAdapter {
    var imageData: FlatImageData

    /** A fresh adapter holds an empty 0 × 0 image. */
    constructor ()
      ensures imageData == FlatImageData(0, 0, [])
    {
      imageData := FlatImageData(0, 0, []);
    }

    /** `getChannelValue`: ChannelValue on the stored image. */
    function GetChannelValue(x: int, y: int, channel: string): (r: Result<Option<byte>>)
      reads this
      ensures r == ChannelValue(imageData, x, y, channel)
      ensures r.Err? <==> channel !in {"r", "g", "b"}
    {
      ChannelValue(imageData, x, y, channel)
    }

    /** `getChannelValues`: ChannelValues on the stored image. */
    function GetChannelValues(x: int, y: int): (r: Rgb)
      reads this
      ensures GetChannelValue(x, y, "r") == Ok(r.r)
      ensures GetChannelValue(x, y, "g") == Ok(r.g)
      ensures GetChannelValue(x, y, "b") == Ok(r.b)
    {
      ChannelValues(imageData, x, y)
    }

    /** The region [xStart, xEnd) × [yStart, yEnd) into three fresh planes of length
        (xEnd - xStart) * (yEnd - yStart), filled in row-major order through a running index;
        a negative length is refused by the `Uint8Array` constructor. */
    method GetChannelValuesForRegion(xStart: int, xEnd: int, yStart: int, yEnd: int)
      returns (r: Result<RgbPlanes>)
      ensures r.Err? <==> (xEnd - xStart) * (yEnd - yStart) < 0
      ensures r.Err? ==> r.error == InvalidLength
      ensures r.Ok? ==> fresh(r.value.r) && fresh(r.value.g) && fresh(r.value.b)
      ensures r.Ok? ==>
        && r.value.r[..] == RegionPlane(imageData, xStart, xEnd, yStart, yEnd, 0)
        && r.value.g[..] == RegionPlane(imageData, xStart, xEnd, yStart, yEnd, 1)
        && r.value.b[..] == RegionPlane(imageData, xStart, xEnd, yStart, yEnd, 2)
    {
      var n := (xEnd - xStart) * (yEnd - yStart);
      if n < 0 {
        return Err(InvalidLength);
      }
      var red, green, blue := new byte[n](_ => 0), new byte[n](_ => 0), new byte[n](_ => 0);
      assert red[..] == green[..] == blue[..] == Zeros(n);
      RowsFit(xStart, xEnd, yStart, yEnd);
      FillRegion(red, green, blue, xStart, xEnd, yStart, yEnd);
      return Ok(RgbPlanes(red, green, blue));
    }

    /** The two nested loops of the region read, over three zeroed planes of the allocated
        length. */
    method FillRegion(red: array<byte>, green: array<byte>, blue: array<byte>,
                      xStart: int, xEnd: int, yStart: int, yEnd: int)
      requires red != green && red != blue && green != blue
      requires |Rows(xStart, xEnd, yStart, yEnd)| <= (xEnd - xStart) * (yEnd - yStart)
      requires red[..] == green[..] == blue[..] == Zeros((xEnd - xStart) * (yEnd - yStart))
      modifies red, green, blue
      ensures red[..] == RegionPlane(imageData, xStart, xEnd, yStart, yEnd, 0)
      ensures green[..] == RegionPlane(imageData, xStart, xEnd, yStart, yEnd, 1)
      ensures blue[..] == RegionPlane(imageData, xStart, xEnd, yStart, yEnd, 2)
    {
      ghost var all, n := Rows(xStart, xEnd, yStart, yEnd), (xEnd - xStart) * (yEnd - yStart);
      var index := 0;
      var y := yStart;
      while y < yEnd
        invariant Filled(imageData, all, index, red[..], green[..], blue[..], n)
        invariant all[index..] == Rows(xStart, xEnd, y, yEnd)
        decreases yEnd - y
      {
        index := FillRow(red, green, blue, index, xStart, xEnd, y, all, Rows(xStart, xEnd, y + 1, yEnd), n);
        y := y + 1;
      }
      assert index == |all|;
      FillEnd(imageData, all, red[..], green[..], blue[..], n);
    }

    /** The inner loop of the region read: row y, x from xStart up to xEnd, stored at the
        running index, which it returns advanced past the row. */
    method FillRow(red: array<byte>, green: array<byte>, blue: array<byte>, index0: int,
                   xStart: int, xEnd: int, y: int, ghost all: seq<Point>, ghost tail: seq<Point>, ghost n: int)
      returns (index: int)
      requires red != green && red != blue && green != blue && |all| <= n
      requires Filled(imageData, all, index0, red[..], green[..], blue[..], n)
      requires all[index0..] == Row(xStart, xEnd, y) + tail
      modifies red, green, blue
      ensures Filled(imageData, all, index, red[..], green[..], blue[..], n)
      ensures all[index..] == tail
    {
      index := index0;
      var x := xStart;
      while x < xEnd
        invariant Filled(imageData, all, index, red[..], green[..], blue[..], n)
        invariant all[index..] == Row(x, xEnd, y) + tail
        decreases xEnd - x
      {
        RowStep(all, index, x, xEnd, y, tail);
        var px := GetChannelValues(x, y);
        Store(red, green, blue, index, px, all, n);
        index := index + 1;
        x := x + 1;
      }
    }

    /** `r[index] = red; g[index] = green; b[index] = blue` for the read of the next point. */
    method Store(red: array<byte>, green: array<byte>, blue: array<byte>, index: int, px: Rgb,
                 ghost all: seq<Point>, ghost n: int)
      requires red != green && red != blue && green != blue
      requires Filled(imageData, all, index, red[..], green[..], blue[..], n) && index < |all| <= n
      requires px == ChannelValues(imageData, all[index].x, all[index].y)
      modifies red, green, blue
      ensures Filled(imageData, all, index + 1, red[..], green[..], blue[..], n)
    {
      FillStep(imageData, all, index, red[..], green[..], blue[..], n, px);
      ghost var r0, g0, b0 := red[..], green[..], blue[..];
      red[index] := OrZero(px.r);
      green[index] := OrZero(px.g);
      blue[index] := OrZero(px.b);
      assert red[..] == r0[index := OrZero(px.r)];
      assert green[..] == g0[index := OrZero(px.g)];
    }

    /** Replaces the whole image description. */
    method SetImageData(width: int, height: int, data: seq<byte>)
      modifies this
      ensures GetImageData() == FlatImageData(width, height, data)
    {
      imageData := FlatImageData(width, height, data);
    }

    /** The image description last stored. */
    function GetImageData(): (r: FlatImageData)
      reads this
      ensures r == imageData
    {
      imageData
    }
  }
}
