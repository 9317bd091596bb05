/** The pixel-record store: `NodeCanvasAdapter` without its canvas and file calls. The
    image is a row-major array of channel records, entry `y * width + x` for pixel (x, y).
    Reads are bounds-checked, a write overwrites one entry of the array in place, and two
    loops convert between the records and the interleaved bytes of a canvas buffer. */
module CanvasStore {
  import opened Outcomes
  import opened Geometry

  /** An element of a `Uint8ClampedArray` (a canvas buffer). */
  newtype byte = b: int | 0 <= b < 256

  /** A pixel record: channel name to value. A channel that is absent, or present with the
      value `undefined`, has no key. */
  type PixelValue = map<string, int>

  datatype ImageMetadata = ImageMetadata(format: string, size: int, channels: seq<string>)

  /** The `{ width, height }` that destructuring a metadata value yields; a field the value
      does not have is `undefined`. */
  datatype Dimensions = Dimensions(width: Option<int>, height: Option<int>)

  /** Destructuring this store's metadata: it has format, size and channels, and neither a
      width nor a height. */
  function MetadataDimensions(m: ImageMetadata): Dimensions {
    Dimensions(None, None)
  }

  /** The stored image. `pixelData` is a JavaScript array: `None` is a hole, which a write
      past the end of the array leaves behind. */
  datatype ImageData = ImageData(imageMetadata: ImageMetadata, width: int, height: int,
                                 pixelData: seq<Option<PixelValue>>)

  /** The channel order of a decoded canvas buffer. */
  const RGBA: seq<string> := ["r", "g", "b", "a"]

  /** A record array without holes, as the constructor receives it. */
  function Dense(pixels: seq<PixelValue>): (r: seq<Option<PixelValue>>)
    ensures |r| == |pixels| && forall i :: 0 <= i < |pixels| ==> r[i] == Some(pixels[i])
  {
    seq(|pixels|, i requires 0 <= i < |pixels| => Some(pixels[i]))
  }

  predicate InBounds(d: ImageData, x: int, y: int) {
    0 <= x < d.width && 0 <= y < d.height
  }

  /** The array index of pixel (x, y). */
  function Slot(d: ImageData, x: int, y: int): int {
    y * d.width + x
  }

  /** `pixelData[i]`: `undefined` (`None`) for a hole or an index outside the array. */
  function Entry(d: ImageData, i: int): Option<PixelValue> {
    if 0 <= i < |d.pixelData| then d.pixelData[i] else None
  }

  /** The record a read returns, `{ r, g, b, a }`: r, g and b as stored (`undefined` when the
      stored record has none) and a as stored or 255. */
  datatype Rgba = Rgba(r: Option<int>, g: Option<int>, b: Option<int>, a: int)

  /** `p[c]`, `undefined` when p has no channel c. */
  function Get(p: PixelValue, c: string): Option<int> {
    if c in p then Some(p[c]) else None
  }

  /** `{ r: pixel.r, g: pixel.g, b: pixel.b, a: pixel.a ?? 255 }`. */
  function Project(p: PixelValue): Rgba {
    Rgba(Get(p, "r"), Get(p, "g"), Get(p, "b"), if "a" in p then p["a"] else 255)
  }

  /** The same record as a pixel record: a always present, r, g and b when defined. */
  function Record(v: Rgba): (p: PixelValue)
    ensures Project(p) == v
    ensures p.Keys <= {"r", "g", "b", "a"}
  {
    var m := map["a" := v.a];
    var m := if v.r.Some? then m["r" := v.r.value] else m;
    var m := if v.g.Some? then m["g" := v.g.value] else m;
    if v.b.Some? then m["b" := v.b.value] else m
  }

  /** `getChannelValues(x, y)`: out of bounds is refused; an in-bounds entry that is missing
      fails on the property read; otherwise the entry's projection. */
  function PixelAt(d: ImageData, x: int, y: int): (r: Result<Rgba>)
    ensures r == Err(OutOfBounds) <==> !InBounds(d, x, y)
    ensures InBounds(d, x, y) && Entry(d, Slot(d, x, y)).None? ==> r == Err(MissingPixel)
    ensures InBounds(d, x, y) && Entry(d, Slot(d, x, y)).Some? ==>
              r == Ok(Project(Entry(d, Slot(d, x, y)).value))
  {
    if x < 0 || x >= d.width || y < 0 || y >= d.height then Err(OutOfBounds)
    else
      match Entry(d, Slot(d, x, y))
      case None => Err(MissingPixel)
      case Some(p) => Ok(Project(p))
  }

  /** Reading the points ps in order: all the records when every read succeeds, else the
      failure of the first read that fails, with nothing after it read. */
  function ReadAll(d: ImageData, ps: seq<Point>): Result<seq<Rgba>> {
    if ps == [] then Ok([])
    else
      match PixelAt(d, ps[0].x, ps[0].y)
      case Err(e) => Err(e)
      case Ok(v) =>
        match ReadAll(d, ps[1..])
        case Err(e) => Err(e)
        case Ok(vs) => Ok([v] + vs)
  }

  /** The reads of ps succeed exactly when every point reads successfully, and then return
      one record per point, in order. */
  lemma {:induction false} ReadAllSucceeds(d: ImageData, ps: seq<Point>)
    ensures ReadAll(d, ps).Ok? <==> forall i :: 0 <= i < |ps| ==> PixelAt(d, ps[i].x, ps[i].y).Ok?
    ensures ReadAll(d, ps).Ok? ==> (|ReadAll(d, ps).value| == |ps| &&
              forall i :: 0 <= i < |ps| ==> ReadAll(d, ps).value[i] == PixelAt(d, ps[i].x, ps[i].y).value)
  {
    if ps != [] {
      ReadAllSucceeds(d, ps[1..]);
      assert forall i :: 1 <= i < |ps| ==> ps[i] == ps[1..][i - 1];
    }
  }

  /** A failed read of ps reports the failure of its first failing point: every point
      before it reads successfully. */
  lemma {:induction false} ReadAllFirstFailure(d: ImageData, ps: seq<Point>)
    requires ReadAll(d, ps).Err?
    ensures exists i :: 0 <= i < |ps| && PixelAt(d, ps[i].x, ps[i].y) == Err(ReadAll(d, ps).error) &&
              forall j :: 0 <= j < i ==> PixelAt(d, ps[j].x, ps[j].y).Ok?
  {
    assert ps != [];
    if PixelAt(d, ps[0].x, ps[0].y).Ok? {
      ReadAllFirstFailure(d, ps[1..]);
      var i :| 0 <= i < |ps[1..]| && PixelAt(d, ps[1..][i].x, ps[1..][i].y) == Err(ReadAll(d, ps[1..]).error) &&
               forall j :: 0 <= j < i ==> PixelAt(d, ps[1..][j].x, ps[1..][j].y).Ok?;
      assert PixelAt(d, ps[i + 1].x, ps[i + 1].y) == Err(ReadAll(d, ps).error);
      assert forall j :: 0 <= j < i + 1 ==> PixelAt(d, ps[j].x, ps[j].y).Ok? by {
        forall j | 0 <= j < i + 1
          ensures PixelAt(d, ps[j].x, ps[j].y).Ok?
        {
          if j > 0 {
            assert ps[j] == ps[1..][j - 1];
          }
        }
      }
    } else {
      assert PixelAt(d, ps[0].x, ps[0].y) == Err(ReadAll(d, ps).error);
    }
  }

  /** The records of a region, row by row. */
  function Region(d: ImageData, xStart: int, xEnd: int, yStart: int, yEnd: int): Result<seq<Rgba>> {
    ReadAll(d, Rows(xStart, xEnd, yStart, yEnd))
  }

  /** What reads so far (acc) followed by the reads still to come make. */
  function Then(acc: seq<Rgba>, rest: Result<seq<Rgba>>): Result<seq<Rgba>> {
    match rest
    case Ok(vs) => Ok(acc + vs)
    case Err(e) => Err(e)
  }

  /** Nothing read yet, or nothing left to read. */
  lemma ThenUnit(acc: seq<Rgba>, rest: Result<seq<Rgba>>)
    ensures Then([], rest) == rest
    ensures Then(acc, Ok([])) == Ok(acc)
  {
    assert acc + [] == acc;
    if rest.Ok? {
      assert [] + rest.value == rest.value;
    }
  }

  /** Reading ps then qs: the reads of ps, then, if they all succeed, those of qs. */
  lemma {:induction false} ReadAllAppend(d: ImageData, ps: seq<Point>, qs: seq<Point>)
    ensures ReadAll(d, ps + qs) ==
              match ReadAll(d, ps)
              case Err(e) => Err(e)
              case Ok(vs) => Then(vs, ReadAll(d, qs))
  {
    if ps == [] {
      assert ps + qs == qs;
      ThenUnit([], ReadAll(d, qs));
    } else {
      assert (ps + qs)[0] == ps[0] && (ps + qs)[1..] == ps[1..] + qs;
      ReadAllAppend(d, ps[1..], qs);
      if ReadAll(d, ps).Ok? && ReadAll(d, qs).Ok? {
        var v, vs, ws := PixelAt(d, ps[0].x, ps[0].y).value, ReadAll(d, ps[1..]).value, ReadAll(d, qs).value;
        assert [v] + (vs + ws) == [v] + vs + ws;
      }
    }
  }

  /** One read of a row loop: the read v of (x, y) either ends the reads with its failure or
      joins the records read so far, and the row goes on from x + 1. */
  lemma RowReadStep(d: ImageData, x: int, xEnd: int, y: int, acc: seq<Rgba>, v: Result<Rgba>)
    requires x < xEnd && v == PixelAt(d, x, y)
    ensures v.Err? ==> Then(acc, ReadAll(d, Row(x, xEnd, y))) == Err(v.error)
    ensures v.Ok? ==> Then(acc, ReadAll(d, Row(x, xEnd, y))) == Then(acc + [v.value], ReadAll(d, Row(x + 1, xEnd, y)))
  {
    var row := Row(x, xEnd, y);
    assert row[0] == Point(x, y) && row[1..] == Row(x + 1, xEnd, y);
    if v.Ok? {
      match ReadAll(d, Row(x + 1, xEnd, y))
      case Ok(vs) => assert acc + ([v.value] + vs) == acc + [v.value] + vs;
      case Err(_) =>
    }
  }

  /** The end of a row loop: nothing is left to read. */
  lemma RowReadEnd(d: ImageData, x: int, xEnd: int, y: int, acc: seq<Rgba>)
    requires x >= xEnd
    ensures Then(acc, ReadAll(d, Row(x, xEnd, y))) == Ok(acc)
  {
    ThenUnit(acc, Ok([]));
  }

  /** One row of a region loop: the reads row of row y either end with a failure or are
      followed by those of the rows below it. */
  lemma RowsReadStep(d: ImageData, xStart: int, xEnd: int, y: int, yEnd: int, acc: seq<Rgba>,
                     row: Result<seq<Rgba>>)
    requires y < yEnd && row == Then(acc, ReadAll(d, Row(xStart, xEnd, y)))
    ensures row.Err? ==> Then(acc, ReadAll(d, Rows(xStart, xEnd, y, yEnd))) == row
    ensures row.Ok? ==>
              Then(acc, ReadAll(d, Rows(xStart, xEnd, y, yEnd))) == Then(row.value, ReadAll(d, Rows(xStart, xEnd, y + 1, yEnd)))
  {
    ReadAllAppend(d, Row(xStart, xEnd, y), Rows(xStart, xEnd, y + 1, yEnd));
    match ReadAll(d, Row(xStart, xEnd, y))
    case Err(_) =>
    case Ok(vs) =>
      match ReadAll(d, Rows(xStart, xEnd, y + 1, yEnd))
      case Ok(ws) => assert acc + (vs + ws) == acc + vs + ws;
      case Err(_) =>
  }

  /** The end of a region loop: nothing is left to read. */
  lemma RowsReadEnd(d: ImageData, xStart: int, xEnd: int, y: int, yEnd: int, acc: seq<Rgba>)
    requires y >= yEnd
    ensures Then(acc, ReadAll(d, Rows(xStart, xEnd, y, yEnd))) == Ok(acc)
  {
    ThenUnit(acc, Ok([]));
  }

  /** Assigning `pixelData[i] = v` on a JavaScript array: a negative index sets a property and
      no element, an index inside the array replaces that element, and an index past the end
      extends the array with holes up to it. */
  function WithPixel(d: ImageData, x: int, y: int, v: PixelValue): (r: ImageData)
    ensures r.imageMetadata == d.imageMetadata && r.width == d.width && r.height == d.height
    ensures Slot(d, x, y) >= 0 ==> Entry(r, Slot(d, x, y)) == Some(v)
    ensures forall i :: i != Slot(d, x, y) ==> Entry(r, i) == Entry(d, i)
  {
    var i := Slot(d, x, y);
    if i < 0 then d
    else if i < |d.pixelData| then d.(pixelData := d.pixelData[i := Some(v)])
    else d.(pixelData := d.pixelData + seq(i - |d.pixelData|, _ => None) + [Some(v)])
  }

  /** Storing a number into a `Uint8ClampedArray`. */
  function Clamp(v: int): byte {
    if v < 0 then 0 else if v > 255 then 255 else v as byte
  }

  /** `pixel[channel] ?? 0`. */
  function Lookup(p: PixelValue, channel: string): int {
    if channel in p then p[channel] else 0
  }

  /** The bytes the pack loop writes for one record: one per channel, in channel order. */
  function RecordBytes(p: PixelValue, channels: seq<string>): (r: seq<byte>)
    ensures |r| == |channels|
    ensures forall k :: 0 <= k < |channels| ==> r[k] == Clamp(Lookup(p, channels[k]))
  {
    seq(|channels|, k requires 0 <= k < |channels| => Clamp(Lookup(p, channels[k])))
  }

  /** The records laid out one after another, each as its channel bytes. */
  function Flat(pixels: seq<PixelValue>, channels: seq<string>): seq<byte> {
    if pixels == [] then [] else RecordBytes(pixels[0], channels) + Flat(pixels[1..], channels)
  }

  /** The packed buffer of length len: the laid-out records, cut at the buffer's end or
      followed by the zeros of a fresh buffer. */
  function Packed(pixels: seq<PixelValue>, channels: seq<string>, len: nat): (r: seq<byte>)
    ensures |r| == len
  {
    var f := Flat(pixels, channels);
    if |f| >= len then f[..len] else f + seq(len - |f|, _ => 0 as byte)
  }

  lemma {:induction false} FlatLength(pixels: seq<PixelValue>, channels: seq<string>)
    ensures |Flat(pixels, channels)| == |pixels| * |channels|
  {
    if pixels != [] {
      FlatLength(pixels[1..], channels);
      assert |pixels| * |channels| == (|pixels| - 1) * |channels| + |channels|;
    }
  }

  /** Channel k of record i is byte i * n + k of the laid-out records, n being the number of
      channels. */
  lemma {:induction false} FlatLayout(pixels: seq<PixelValue>, channels: seq<string>, i: int, k: int, j: int)
    requires 0 <= i < |pixels| && 0 <= k < |channels| && j == i * |channels| + k
    ensures j < |Flat(pixels, channels)| && Flat(pixels, channels)[j] == Clamp(Lookup(pixels[i], channels[k]))
  {
    var n := |channels|;
    FlatLength(pixels[1..], channels);
    if i > 0 {
      FlatLayout(pixels[1..], channels, i - 1, k, j - n);
      assert (i - 1) * n + k == j - n by {
        assert i * n == (i - 1) * n + n;
      }
    }
  }

  /** Channel k of record i is byte i * n + k of the packed buffer, when that byte exists. */
  lemma PackedLayout(pixels: seq<PixelValue>, channels: seq<string>, len: nat, i: int, k: int, j: int)
    requires 0 <= i < |pixels| && 0 <= k < |channels| && j == i * |channels| + k && j < len
    ensures Packed(pixels, channels, len)[j] == Clamp(Lookup(pixels[i], channels[k]))
  {
    FlatLayout(pixels, channels, i, k, j);
  }

  /** The bytes past the last record keep the zero of a fresh buffer. */
  lemma PackedTail(pixels: seq<PixelValue>, channels: seq<string>, len: nat, j: int)
    requires |pixels| * |channels| <= j < len
    ensures Packed(pixels, channels, len)[j] == 0
  {
    FlatLength(pixels, channels);
  }

  /** The pixel record the unpack loop builds from the bytes at base, base + 1, …: channel k
      takes byte base + k, or `undefined` (no key) past the end of the bytes. */
  function RecordAt(data: seq<byte>, base: int, channels: seq<string>): PixelValue
    decreases |channels|
  {
    if channels == [] then map[]
    else
      var k := |channels| - 1;
      var m := RecordAt(data, base, channels[..k]);
      if 0 <= base + k < |data| then m[channels[k] := data[base + k] as int]
      else m - {channels[k]}
  }

  /** The records of a decoded buffer: one per four bytes, the last one possibly short. */
  function Unpacked(data: seq<byte>): (r: seq<PixelValue>)
    ensures |r| == (|data| + 3) / 4
  {
    seq((|data| + 3) / 4, m requires 0 <= m < (|data| + 3) / 4 => RecordAt(data, 4 * m, RGBA))
  }

  /** A record carrying exactly the channels r, g, b and a, each a byte value. */
  predicate FullRecord(p: PixelValue) {
    && p.Keys == {"r", "g", "b", "a"}
    && 0 <= p["r"] < 256 && 0 <= p["g"] < 256 && 0 <= p["b"] < 256 && 0 <= p["a"] < 256
  }

  /** The record unpacked from four bytes at base holds them as r, g, b and a. */
  lemma RecordOfFour(data: seq<byte>, base: int)
    requires 0 <= base && base + 4 <= |data|
    ensures RecordAt(data, base, RGBA) == map["r" := data[base] as int, "g" := data[base + 1] as int,
                                              "b" := data[base + 2] as int, "a" := data[base + 3] as int]
  {
    assert RGBA[..3] == ["r", "g", "b"];
    assert ["r", "g", "b"][..2] == ["r", "g"];
    assert ["r", "g"][..1] == ["r"];
    assert ["r"][..0] == [];
    assert RecordAt(data, base, ["r"]) == map["r" := data[base] as int];
    assert RecordAt(data, base, ["r", "g"]) == map["r" := data[base] as int, "g" := data[base + 1] as int];
  }

  /** Four bytes holding the channels of a full record unpack to that record. */
  lemma RecordOfBytes(data: seq<byte>, base: int, p: PixelValue)
    requires 0 <= base && base + 4 <= |data| && FullRecord(p)
    requires data[base] as int == p["r"] && data[base + 1] as int == p["g"]
    requires data[base + 2] as int == p["b"] && data[base + 3] as int == p["a"]
    ensures RecordAt(data, base, RGBA) == p
  {
    RecordOfFour(data, base);
  }

  /** Record m of a packed buffer of full RGBA records unpacks to itself. */
  lemma UnpackRecord(pixels: seq<PixelValue>, m: int)
    requires 0 <= m < |pixels| && FullRecord(pixels[m])
    ensures RecordAt(Packed(pixels, RGBA, 4 * |pixels|), 4 * m, RGBA) == pixels[m]
  {
    var data, p := Packed(pixels, RGBA, 4 * |pixels|), pixels[m];
    var base := 4 * m;
    assert RGBA[0] == "r" && RGBA[1] == "g" && RGBA[2] == "b" && RGBA[3] == "a";
    assert m * |RGBA| == base && base + 3 < 4 * |pixels|;
    assert "r" in p && "g" in p && "b" in p && "a" in p;
    assert data[base] as int == p["r"] by {
      PackedLayout(pixels, RGBA, 4 * |pixels|, m, 0, base);
    }
    assert data[base + 1] as int == p["g"] by {
      PackedLayout(pixels, RGBA, 4 * |pixels|, m, 1, base + 1);
    }
    assert data[base + 2] as int == p["b"] by {
      PackedLayout(pixels, RGBA, 4 * |pixels|, m, 2, base + 2);
    }
    assert data[base + 3] as int == p["a"] by {
      PackedLayout(pixels, RGBA, 4 * |pixels|, m, 3, base + 3);
    }
    RecordOfBytes(data, base, p);
  }

  /** Unpacking a packed buffer of full RGBA records gives the records back. */
  lemma {:induction false} UnpackAfterPack(pixels: seq<PixelValue>)
    requires forall i :: 0 <= i < |pixels| ==> FullRecord(pixels[i])
    ensures Unpacked(Packed(pixels, RGBA, 4 * |pixels|)) == pixels
  {
    var data := Packed(pixels, RGBA, 4 * |pixels|);
    DivModUnique(4 * |pixels| + 3, 4, |pixels|, 3);
    forall m | 0 <= m < |pixels|
      ensures Unpacked(data)[m] == pixels[m]
    {
      UnpackRecord(pixels, m);
    }
  }

  /** Packing the records of a decoded buffer whose length is a multiple of four gives the
      buffer back. */
  lemma {:induction false} PackAfterUnpack(data: seq<byte>)
    requires |data| % 4 == 0
    ensures Packed(Unpacked(data), RGBA, |data|) == data
  {
    var pixels := Unpacked(data);
    DivModUnique(|data| + 3, 4, |data| / 4, 3);
    forall j | 0 <= j < |data|
      ensures Packed(pixels, RGBA, |data|)[j] == data[j]
    {
      var m, k := j / 4, j % 4;
      assert m * |RGBA| + k == j;
      PackedLayout(pixels, RGBA, |data|, m, k, j);
      RecordOfFour(data, 4 * m);
    }
  }

  /** Distinct in-bounds pixels occupy distinct entries. */
  lemma SlotsDistinct(d: ImageData, x: int, y: int, x2: int, y2: int)
    requires InBounds(d, x, y) && InBounds(d, x2, y2) && (x, y) != (x2, y2)
    ensures Slot(d, x, y) != Slot(d, x2, y2)
  {
    if Slot(d, x, y) == Slot(d, x2, y2) {
      DivModUnique(Slot(d, x, y), d.width, y, x);
      DivModUnique(Slot(d, x, y), d.width, y2, x2);
      assert false;
    }
  }

  /** A write followed by a read of the same in-bounds pixel returns the projection of the
      record written, whatever the entry held before: the record is replaced, not merged. A
      record of r, g, b and a comes back as written. */
  lemma ReadAfterWrite(d: ImageData, x: int, y: int, v: PixelValue)
    requires InBounds(d, x, y)
    ensures PixelAt(WithPixel(d, x, y, v), x, y) == Ok(Project(v))
    ensures v.Keys == {"r", "g", "b", "a"} ==>
              PixelAt(WithPixel(d, x, y, v), x, y) == Ok(Rgba(Some(v["r"]), Some(v["g"]), Some(v["b"]), v["a"])) &&
              Record(PixelAt(WithPixel(d, x, y, v), x, y).value) == v
  {
    SlotInside(d, x, y);
    if v.Keys == {"r", "g", "b", "a"} {
      assert "r" in v && "g" in v && "b" in v && "a" in v;
      var back := Record(Project(v));
      assert back.Keys == v.Keys;
      assert back == v;
    }
  }

  /** A write leaves every other in-bounds pixel reading as before: the whole record is
      replaced at one index and nothing else moves. */
  lemma WriteFrame(d: ImageData, x: int, y: int, v: PixelValue, x2: int, y2: int)
    requires InBounds(d, x, y) && (x2, y2) != (x, y)
    ensures PixelAt(WithPixel(d, x, y, v), x2, y2) == PixelAt(d, x2, y2)
  {
    if InBounds(d, x2, y2) {
      SlotsDistinct(d, x, y, x2, y2);
    }
  }

  /** Writing `{ g: 5 }` over a full record of a 1 × 1 image: the read shows r and b
      `undefined` and a at its default, none of the old record surviving. */
  lemma WriteReplaces()
    ensures var d := ImageData(ImageMetadata("png", 4, RGBA), 1, 1, [Some(map["r" := 1, "g" := 2, "b" := 3, "a" := 4])]);
            PixelAt(WithPixel(d, 0, 0, map["g" := 5]), 0, 0) == Ok(Rgba(None, Some(5), None, 255))
  {
    var d := ImageData(ImageMetadata("png", 4, RGBA), 1, 1, [Some(map["r" := 1, "g" := 2, "b" := 3, "a" := 4])]);
    ReadAfterWrite(d, 0, 0, map["g" := 5]);
  }

  /** Every in-bounds pixel has an entry: the image has no hole and no missing tail. */
  ghost predicate Complete(d: ImageData) {
    forall x, y :: InBounds(d, x, y) ==> Entry(d, Slot(d, x, y)).Some?
  }

  /** An image whose first width * height entries are all present is complete. */
  lemma CompleteWhenFilled(d: ImageData)
    requires forall i :: 0 <= i < d.width * d.height ==> Entry(d, i).Some?
    ensures Complete(d)
  {
    forall x, y | InBounds(d, x, y)
      ensures Entry(d, Slot(d, x, y)).Some?
    {
      SlotInside(d, x, y);
    }
  }

  /** In-bounds pixels occupy the first width * height entries. */
  lemma SlotInside(d: ImageData, x: int, y: int)
    requires InBounds(d, x, y)
    ensures 0 <= Slot(d, x, y) < d.width * d.height
  {
    if y >= 1 {
      MulAtLeast(y, d.width);
    }
    if y < d.height - 1 {
      MulAtLeast(d.height - 1 - y, d.width);
    }
    assert (d.height - 1 - y) * d.width == d.width * d.height - d.width - y * d.width;
  }

  /** A region inside a complete image reads successfully, one record per pixel. */
  lemma RegionInBounds(d: ImageData, xStart: int, xEnd: int, yStart: int, yEnd: int)
    requires 0 <= xStart <= xEnd <= d.width && 0 <= yStart <= yEnd <= d.height && Complete(d)
    ensures Region(d, xStart, xEnd, yStart, yEnd).Ok?
    ensures |Region(d, xStart, xEnd, yStart, yEnd).value| == (xEnd - xStart) * (yEnd - yStart)
  {
    var ps := Rows(xStart, xEnd, yStart, yEnd);
    forall i | 0 <= i < |ps|
      ensures PixelAt(d, ps[i].x, ps[i].y).Ok?
    {
      RowsMembership(xStart, xEnd, yStart, yEnd, ps[i]);
    }
    ReadAllSucceeds(d, ps);
    RowsLength(xStart, xEnd, yStart, yEnd);
  }

  /** The record of pixel (x, y) in a successful region read is entry
      (y - yStart) * (xEnd - xStart) + (x - xStart): y is the outer loop and x the inner one. */
  lemma RegionEntry(d: ImageData, xStart: int, xEnd: int, yStart: int, yEnd: int, x: int, y: int)
    requires Region(d, xStart, xEnd, yStart, yEnd).Ok?
    requires xStart <= x < xEnd && yStart <= y < yEnd
    ensures PixelAt(d, x, y).Ok?
    ensures var v, i := Region(d, xStart, xEnd, yStart, yEnd).value, (y - yStart) * (xEnd - xStart) + (x - xStart);
            0 <= i < |v| && v[i] == PixelAt(d, x, y).value
  {
    ReadAllSucceeds(d, Rows(xStart, xEnd, yStart, yEnd));
    RowsIndex(xStart, xEnd, yStart, yEnd, x, y);
  }

  /** A region read fails exactly when one of its pixels fails to read, the first such
      failure in row-major order being the one returned; in particular a region reaching
      outside the image fails. */
  lemma RegionFails(d: ImageData, xStart: int, xEnd: int, yStart: int, yEnd: int, x: int, y: int)
    requires xStart <= x < xEnd && yStart <= y < yEnd && !InBounds(d, x, y)
    ensures Region(d, xStart, xEnd, yStart, yEnd).Err?
  {
    RowsIndex(xStart, xEnd, yStart, yEnd, x, y);
    ReadAllSucceeds(d, Rows(xStart, xEnd, yStart, yEnd));
  }

  class NodeCanvasAdapter {
    var imageData: ImageData
    /** The bytes of the canvas buffer the constructor fills. */
    var surface: seq<byte>

    /** Stores the image and packs its records into the canvas buffer. */
    constructor (imageMetadata: ImageMetadata, width: int, height: int, pixelData: seq<PixelValue>)
      requires width >= 0 && height >= 0
      ensures imageData == ImageData(imageMetadata, width, height, Dense(pixelData))
      ensures surface == Packed(pixelData, imageMetadata.channels, width * height * 4)
    {
      imageData := ImageData(imageMetadata, width, height, Dense(pixelData));
      var data := PopulateCanvas(pixelData, imageMetadata.channels, width, height);
      surface := data[..];
    }

    /** The pack loop: a fresh `width × height` buffer, then for every record i and every
        channel k the byte at i * n + k; writes past the buffer's end are ignored. */
    static method PopulateCanvas(pixels: seq<PixelValue>, channels: seq<string>, width: int, height: int)
      returns (data: array<byte>)
      requires width >= 0 && height >= 0
      ensures fresh(data)
      ensures data[..] == Packed(pixels, channels, width * height * 4)
    {
      var n := |channels|;
      assert width * height >= 0;
      data := new byte[width * height * 4](_ => 0);
      ghost var packed := Packed(pixels, channels, data.Length);
      var i := 0;
      while i < |pixels|
        invariant 0 <= i <= |pixels|
        invariant forall j :: 0 <= j < data.Length ==> data[j] == if j < i * n then packed[j] else 0
      {
        PackRecord(data, pixels, channels, i, packed);
        assert i * n + n == (i + 1) * n;
        i := i + 1;
      }
      forall j | 0 <= j < data.Length
        ensures data[j] == packed[j]
      {
        if j >= i * n {
          PackedTail(pixels, channels, data.Length, j);
        }
      }
    }

    /** The `channels.forEach` of the pack loop for record i. */
    static method PackRecord(data: array<byte>, pixels: seq<PixelValue>, channels: seq<string>, i: int,
                             ghost packed: seq<byte>)
      requires 0 <= i < |pixels| && packed == Packed(pixels, channels, data.Length)
      requires forall j :: 0 <= j < data.Length ==> data[j] == if j < i * |channels| then packed[j] else 0
      modifies data
      ensures forall j :: 0 <= j < data.Length ==>
                data[j] == if j < i * |channels| + |channels| then packed[j] else 0
    {
      var n := |channels|;
      var k := 0;
      while k < n
        invariant 0 <= k <= n
        invariant forall j :: 0 <= j < data.Length ==> data[j] == if j < i * n + k then packed[j] else 0
      {
        var at := i * n + k;
        if at < data.Length {
          PackedLayout(pixels, channels, data.Length, i, k, at);
          data[at] := Clamp(Lookup(pixels[i], channels[k]));
        }
        k := k + 1;
      }
    }

    /** `getMetadata`: the metadata record of the stored image, which reports no width and
        no height. */
    function GetMetadata(): (r: ImageMetadata)
      reads this
      ensures r == imageData.imageMetadata
      ensures MetadataDimensions(r) == Dimensions(None, None)
    {
      imageData.imageMetadata
    }

    /** `getImageData`: the stored image. */
    function GetImageData(): (r: ImageData)
      reads this
      ensures r == imageData
    {
      imageData
    }

    /** `getChannelValues` on the stored image. */
    function GetChannelValues(x: int, y: int): (r: Result<Rgba>)
      reads this
      ensures r == PixelAt(imageData, x, y)
      ensures r == Err(OutOfBounds) <==> !InBounds(imageData, x, y)
    {
      PixelAt(imageData, x, y)
    }

    /** `getChannelValuesForRegion`: y from yStart up to yEnd, x from xStart up to xEnd, each
        read pushed in turn; the first failing read ends the loop and its failure is
        returned. */
    method GetChannelValuesForRegion(xStart: int, xEnd: int, yStart: int, yEnd: int)
      returns (r: Result<seq<Rgba>>)
      ensures r == Region(imageData, xStart, xEnd, yStart, yEnd)
    {
      var pixelValues: seq<Rgba> := [];
      ThenUnit(pixelValues, Region(imageData, xStart, xEnd, yStart, yEnd));
      var y := yStart;
      while y < yEnd
        invariant Region(imageData, xStart, xEnd, yStart, yEnd) == Then(pixelValues, ReadAll(imageData, Rows(xStart, xEnd, y, yEnd)))
        decreases yEnd - y
      {
        var row := ReadRow(xStart, xEnd, y, pixelValues);
        RowsReadStep(imageData, xStart, xEnd, y, yEnd, pixelValues, row);
        if row.Err? {
          return row;
        }
        pixelValues := row.value;
        y := y + 1;
      }
      RowsReadEnd(imageData, xStart, xEnd, y, yEnd, pixelValues);
      return Ok(pixelValues);
    }

    /** The inner loop of the region read: row y, x from xStart up to xEnd, each read pushed
        onto acc, the first failing read ending the loop. */
    method ReadRow(xStart: int, xEnd: int, y: int, acc: seq<Rgba>) returns (r: Result<seq<Rgba>>)
      ensures r == Then(acc, ReadAll(imageData, Row(xStart, xEnd, y)))
    {
      var pixelValues := acc;
      var x := xStart;
      while x < xEnd
        invariant Then(acc, ReadAll(imageData, Row(xStart, xEnd, y))) == Then(pixelValues, ReadAll(imageData, Row(x, xEnd, y)))
        decreases xEnd - x
      {
        var v := GetChannelValues(x, y);
        RowReadStep(imageData, x, xEnd, y, pixelValues, v);
        if v.Err? {
          return Err(v.error);
        }
        pixelValues := pixelValues + [v.value];
        x := x + 1;
      }
      RowReadEnd(imageData, x, xEnd, y, pixelValues);
      return Ok(pixelValues);
    }

    /** The record write of `setChannelValuesForPixel`. */
    method SetChannelValuesForPixel(x: int, y: int, pixelValue: PixelValue)
      modifies this
      ensures imageData == WithPixel(old(imageData), x, y, pixelValue)
      ensures surface == old(surface)
    {
      var i := y * imageData.width + x;
      if i >= 0 {
        var pd := imageData.pixelData;
        if i < |pd| {
          pd := pd[i := Some(pixelValue)];
        } else {
          pd := pd + seq(i - |pd|, _ => None) + [Some(pixelValue)];
        }
        imageData := imageData.(pixelData := pd);
      }
    }

    /** The unpack loop of `fromFile`: every four bytes, starting at 0, become one record of
        channels r, g, b and a. */
    static method UnpackPixels(data: seq<byte>) returns (pixelData: seq<PixelValue>)
      ensures pixelData == Unpacked(data)
    {
      pixelData := [];
      var i := 0;
      while i < |data|
        invariant i == 4 * |pixelData| && (i > 0 ==> i - 4 < |data|)
        invariant forall m :: 0 <= m < |pixelData| ==> pixelData[m] == RecordAt(data, 4 * m, RGBA)
      {
        var pixel: PixelValue := map[];
        var k := 0;
        while k < |RGBA|
          invariant 0 <= k <= |RGBA| && pixel == RecordAt(data, i, RGBA[..k])
        {
          assert RGBA[..k + 1][..k] == RGBA[..k];
          if i + k < |data| {
            pixel := pixel[RGBA[k] := data[i + k] as int];
          } else {
            pixel := pixel - {RGBA[k]};
          }
          k := k + 1;
        }
        assert RGBA[..4] == RGBA;
        pixelData := pixelData + [pixel];
        i := i + 4;
      }
      DivModUnique(|data| + 3, 4, |pixelData|, |data| + 3 - i);
    }

    /** `fromFile` after the image is decoded: the decoded buffer unpacked into records,
        described as a PNG of |data| bytes with channels r, g, b and a, in a new adapter. */
    static method FromFile(width: int, height: int, data: seq<byte>) returns (adapter: NodeCanvasAdapter)
      requires width >= 0 && height >= 0
      ensures fresh(adapter)
      ensures adapter.imageData == ImageData(ImageMetadata("png", |data|, RGBA), width, height, Dense(Unpacked(data)))
      ensures |data| == width * height * 4 ==> adapter.surface == data
    {
      var pixelData := UnpackPixels(data);
      adapter := new NodeCanvasAdapter(ImageMetadata("png", |data|, RGBA), width, height, pixelData);
      if |data| == width * height * 4 {
        PackAfterUnpack(data);
      }
    }
  }
}
