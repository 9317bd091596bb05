# Image cells: a verified model

A model of the core of an image-cell library. The library cuts an image into a grid of
rectangular cells and computes per-cell statistics. The model covers five parts:

- **FlatBuffer** (`base_image_adapter.dfy`): the flat-buffer pixel store `BaseImageAdapter`,
  a `width × height` RGBA byte buffer with stride 4 and no bounds checks. Its region read
  fills three preallocated arrays in row-major order through a running index.
- **CanvasStore** (`node_canvas_adapter.dfy`): the pixel-record store `NodeCanvasAdapter`
  without its canvas and file calls. It holds a row-major array of channel records, with
  bounds-checked reads, row-major region reads, an in-place overwrite of one entry, and the
  pack and unpack loops between records and interleaved canvas bytes.
- **Cells** (`cell.dfy`) covers the class `Cell`, a fixed rectangle over a pixel-record store:
  - `hasPixels`, which stops at the first hit;
  - the rounded average colour;
  - the quantised colour histogram of the entropy;
  - the bounding box;
  - single-pixel reads;
  - extraction of the cell's pixels.
- **Grid** and **Partition** (`grid.dfy`, `partition.dfy`): `partitionImageIntoCells`. It
  walks a row-major grid of candidate cells, clamps the edge cells to the image and keeps
  the candidates that have pixels. As written, it sizes the grid by what `getMetadata()`
  reports, which the pixel-record store does not provide. The corrected version sizes it by
  the stored image, as `CellManager` does.
- **Manager** (`cell_manager.dfy`): `CellManager`, an insertion-ordered list of cells with
  append, first match by origin, removal by identity and an additive partition.

Shared definitions live in `outcomes.dfy` (results and errors) and `geometry.dfy` (the
row-major visiting order of a rectangle and the division facts).

Each source loop is a Dafny `method` with its `while` loop. The method is proved against a
function that states what the loop computes:

- `Region` reads a rectangle.
- `ScanHit` is `hasPixels`.
- `AverageOf` averages the records.
- `Histogram` builds the colour map.
- `Sweep` over `Candidates` is the partition.
- `Packed` and `Unpacked` convert between records and bytes.

Lemmas then prove what the library promises about those functions: bounds, row-major
entries, the round trips, coverage, disjointness, ordering and counts. A JavaScript
`throw` is an `Err` of the `Result` datatype and `undefined` is `None`. A `NaN` component of
an average is `None` too.

Where the code and its documentation disagree, the model follows the code:

- `setChannelValuesForPixel` replaces the whole record at `y * width + x`. It does not merge
  channels into it.
- The partitioners do not reject non-positive cell sizes (they would loop forever). The model
  requires positive sizes.
- Statistics over a zero-area cell are not errors. The average is `NaN` (`None`) and the
  entropy is 0.
- The doc comment of `hasPixels` speaks of an *undefined* red channel. The code tests for a
  defined one, and so does the model.

## Model

| member | source | states |
|---|---|---|
| FlatBuffer.ChannelValue | src/image/adapters/BaseImageAdapter.ts:13-25 | r, g and b are the bytes at offsets 0, 1 and 2 of `(y*width+x)*4`, `undefined` outside the buffer; the call fails with `Invalid channel` exactly when the channel is not r, g or b |
| FlatBuffer.ChannelValues | src/image/adapters/BaseImageAdapter.ts:27-34 | agrees field by field with the single-channel read for r, g and b |
| FlatBuffer.BaseImageAdapter.GetChannelValue | src/image/adapters/BaseImageAdapter.ts:13-25 | the single-channel read of the adapter's own buffer, failing exactly for a channel other than r, g or b |
| FlatBuffer.BaseImageAdapter.GetChannelValues | src/image/adapters/BaseImageAdapter.ts:27-34 | the r, g and b that `getChannelValue` reads at the same pixel |
| FlatBuffer.Plane | src/image/adapters/BaseImageAdapter.ts:50-53 | one stored entry per visited point; entry i is channel k of point i's read, `undefined` stored as 0 |
| FlatBuffer.RegionPlaneLength | src/image/adapters/BaseImageAdapter.ts:43-45 | each returned plane has `(xEnd-xStart)*(yEnd-yStart)` entries |
| FlatBuffer.RegionPlaneEntry | src/image/adapters/BaseImageAdapter.ts:47-56 | entry `(y-yStart)*(xEnd-xStart)+(x-xStart)` of plane k is channel k of the read of (x, y): y outer, x inner |
| FlatBuffer.RegionPlane | src/image/adapters/BaseImageAdapter.ts:37-59 | defines plane k of a region read: channel k of the reads in row-major order, then zeros up to the allocated length (RegionPlaneLength and RegionPlaneEntry prove its shape) |
| FlatBuffer.BaseImageAdapter.constructor | src/image/adapters/BaseImageAdapter.ts:4-6 | a fresh adapter holds width 0, height 0 and an empty buffer |
| FlatBuffer.BaseImageAdapter.GetChannelValuesForRegion | src/image/adapters/BaseImageAdapter.ts:37-59 | fails exactly when the allocated length is negative; otherwise returns three fresh arrays holding the region's planes followed by the zeros of the allocation |
| FlatBuffer.BaseImageAdapter.FillRegion | src/image/adapters/BaseImageAdapter.ts:47-56 | the nested loops turn three zeroed arrays into the region's planes |
| FlatBuffer.BaseImageAdapter.FillRow | src/image/adapters/BaseImageAdapter.ts:49-55 | the inner loop stores row y at the running index and advances it past the row |
| FlatBuffer.BaseImageAdapter.Store | src/image/adapters/BaseImageAdapter.ts:51-53 | the three stores at `index` extend the filled prefix by one point |
| FlatBuffer.BaseImageAdapter.SetImageData | src/image/adapters/BaseImageAdapter.ts:61-66 | `getImageData()` afterwards yields exactly the (width, height, data) given |
| FlatBuffer.BaseImageAdapter.GetImageData | src/image/adapters/BaseImageAdapter.ts:65-67 | returns the stored (width, height, data) |
| CanvasStore.PixelAt | src/image/adapters/NodeCanvasAdapter.ts:121-135 | fails with `Pixel coordinates out of bounds` exactly when `x<0`, `x>=width`, `y<0` or `y>=height`; reading a hole fails; otherwise entry `y*width+x`'s r, g, b and its a, or 255 when a is absent |
| CanvasStore.NodeCanvasAdapter.GetChannelValues | src/image/adapters/NodeCanvasAdapter.ts:121-135 | the single-pixel read of the stored image; it fails with `Pixel coordinates out of bounds` exactly outside the image |
| CanvasStore.ReadAll | src/image/adapters/NodeCanvasAdapter.ts:148-152 | defines the reads of a list of points in turn: every record, or the first failure with nothing after it read (ReadAllSucceeds and ReadAllFirstFailure prove both halves) |
| CanvasStore.Region | src/image/adapters/NodeCanvasAdapter.ts:145-154 | defines the region read: the points of [xStart, xEnd) × [yStart, yEnd) with y outer and x inner, read in turn |
| CanvasStore.Record | src/image/Cell.ts:193-194 | a read record stored back as a pixel record reads as itself |
| CanvasStore.ReadAllSucceeds | src/image/adapters/NodeCanvasAdapter.ts:145-154 | a list of reads succeeds exactly when every single read does, and then returns one record per point, each equal to the single-pixel read |
| CanvasStore.ReadAllFirstFailure | src/image/adapters/NodeCanvasAdapter.ts:150 | a failed list of reads reports the first failing read; every point before it reads successfully |
| CanvasStore.ReadAllAppend | src/image/adapters/NodeCanvasAdapter.ts:148-152 | reading two lists in turn is reading the first, then the second only if the first succeeds |
| CanvasStore.RegionInBounds | src/image/adapters/NodeCanvasAdapter.ts:145-154 | a region inside a complete image reads successfully, `(xEnd-xStart)*(yEnd-yStart)` records |
| CanvasStore.RegionEntry | src/image/adapters/NodeCanvasAdapter.ts:145-154 | record `(y-yStart)*(xEnd-xStart)+(x-xStart)` of a successful region read is the read of (x, y) |
| CanvasStore.RegionFails | src/image/adapters/NodeCanvasAdapter.ts:150 | a region covering an out-of-bounds coordinate fails, returning no partial result |
| CanvasStore.WithPixel | src/image/adapters/NodeCanvasAdapter.ts:111 | the assignment `pixelData[y*width+x] = v` puts v at that index and leaves every other index and the dimensions as they were |
| CanvasStore.SlotsDistinct | src/image/adapters/NodeCanvasAdapter.ts:111 | distinct in-bounds pixels have distinct indices |
| CanvasStore.ReadAfterWrite | tests/adapters/NodeCanvasAdapter.test.ts:78-85 | a read after a write of the same pixel returns the record written, replaced rather than merged; a full RGBA record comes back as written |
| CanvasStore.WriteFrame | src/image/adapters/NodeCanvasAdapter.ts:111 | a write leaves every other pixel's read unchanged |
| CanvasStore.WriteReplaces | src/image/adapters/NodeCanvasAdapter.ts:111 | writing `{g: 5}` over a full record leaves r and b `undefined` and a at 255 |
| CanvasStore.Packed | src/image/adapters/NodeCanvasAdapter.ts:27-34 | the packed buffer has exactly the canvas buffer's length |
| CanvasStore.FlatLength | src/image/adapters/NodeCanvasAdapter.ts:29-34 | n records of c channels lay out as n * c bytes |
| CanvasStore.FlatLayout | src/image/adapters/NodeCanvasAdapter.ts:29-34 | byte `i*n+k` is record i's channel k, 0 when missing, clamped to a byte |
| CanvasStore.PackedLayout | src/image/adapters/NodeCanvasAdapter.ts:29-34 | `flat[i*n+k] = pixel_i[channel_k] ?? 0` for every such byte inside the buffer |
| CanvasStore.PackedTail | src/image/adapters/NodeCanvasAdapter.ts:27 | bytes past the last record keep the zero of the fresh buffer |
| CanvasStore.Unpacked | src/image/adapters/NodeCanvasAdapter.ts:77-83 | the unpack loop makes one record per four bytes, the last one possibly short |
| CanvasStore.RecordOfFour | src/image/adapters/NodeCanvasAdapter.ts:78-81 | four bytes unpack to the record with those values as r, g, b and a |
| CanvasStore.UnpackAfterPack | src/image/adapters/NodeCanvasAdapter.ts:75-83 | unpacking the packed bytes of full RGBA records gives the records back |
| CanvasStore.PackAfterUnpack | src/image/adapters/NodeCanvasAdapter.ts:29-34 | packing the unpacked records of a buffer whose length is a multiple of 4 gives the buffer back |
| CanvasStore.NodeCanvasAdapter.constructor | src/image/adapters/NodeCanvasAdapter.ts:16-21 | stores the image and fills the canvas buffer with its packed records |
| CanvasStore.NodeCanvasAdapter.PopulateCanvas | src/image/adapters/NodeCanvasAdapter.ts:26-36 | the pack loop leaves a fresh buffer of `width*height*4` bytes equal to the packed records |
| CanvasStore.NodeCanvasAdapter.PackRecord | src/image/adapters/NodeCanvasAdapter.ts:31-33 | the `forEach` over channels writes record i's bytes and nothing else |
| CanvasStore.NodeCanvasAdapter.GetChannelValuesForRegion | src/image/adapters/NodeCanvasAdapter.ts:145-154 | the nested loops return the region's reads in row-major order, or the first failing read |
| CanvasStore.NodeCanvasAdapter.ReadRow | src/image/adapters/NodeCanvasAdapter.ts:149-151 | the inner loop appends row y's reads, or stops at the row's first failing read |
| CanvasStore.NodeCanvasAdapter.SetChannelValuesForPixel | src/image/adapters/NodeCanvasAdapter.ts:105-113 | overwrites entry `y*width+x` with the whole record; the packed buffer `surface` is not repainted (the canvas write is left out) |
| CanvasStore.NodeCanvasAdapter.UnpackPixels | src/image/adapters/NodeCanvasAdapter.ts:75-83 | the unpack loop returns the records of the decoded bytes |
| CanvasStore.NodeCanvasAdapter.FromFile | src/image/adapters/NodeCanvasAdapter.ts:69-96 | the new adapter holds the unpacked records, described as a PNG of `data.length` bytes with channels r, g, b, a; a buffer of `width*height*4` bytes is packed back unchanged |
| CanvasStore.MetadataDimensions | src/image/adapters/NodeCanvasAdapter.ts:84-88 | destructuring `{ width, height }` from this store's metadata record (format, size, channels) gives `undefined` for both |
| CanvasStore.NodeCanvasAdapter.GetMetadata | src/image/adapters/NodeCanvasAdapter.ts:50-52 | returns the stored metadata record, which reports no width and no height |
| CanvasStore.NodeCanvasAdapter.GetImageData | src/managers/CellManager.ts:60-61 | returns the stored image record, whose width and height size the manager's grid |
| Cells.ScanHit | src/image/Cell.ts:41-50 | defines the `hasPixels` scan: points in order, true at the first with an r, the first failing read's error, false when none has an r |
| Cells.ScanHitFalse | src/image/Cell.ts:41-50 | `hasPixels` returns false exactly when every pixel reads successfully without an r |
| Cells.ScanHitDecided | src/image/Cell.ts:41-50 | any other outcome is decided by the first pixel that is not a miss: true at a hit, that read's failure otherwise |
| Cells.ScanHitAppend | src/image/Cell.ts:42-48 | the scan reads later pixels only while no pixel so far has decided it |
| Cells.EmptyCellHasNoPixels | src/image/Cell.ts:42-49 | a cell of zero width or zero height has no pixels |
| Cells.ScanHitAllRead | src/image/Cell.ts:41-50 | when every read succeeds, the scan succeeds and is true exactly when some pixel has an r |
| Cells.ScanHitRect | src/image/Cell.ts:41-50 | a cell whose reads succeed has pixels exactly when some point of its rectangle has an r |
| Cells.HasPixelsInside | src/image/Cell.ts:41-50 | a cell inside a complete image reads without failure and has pixels iff one of its pixels has a defined r |
| Cells.FirstHitStopsScan | tests/image/Cell.test.ts:227-244 | a hit at the first pixel ends the scan with true, although reading the whole cell would fail |
| Cells.RoundQuotient | src/image/Cell.ts:75-77 | defines `Math.round(a / b)` for b > 0 as the integer `(2a+b)/(2b)` (RoundQuotientNearest and RoundQuotientUnique prove it is the rounding) |
| Cells.RoundQuotientNearest | src/image/Cell.ts:75-77 | `(2a+b)/(2b)` is within one half of a/b, the upper half excluded (`Math.round`) |
| Cells.RoundQuotientUnique | src/image/Cell.ts:75-77 | no other integer is within that half |
| Cells.TallyStep | src/image/Cell.ts:68-71 | one loop pass adds a record's channels to the sums and one to the count |
| Cells.AverageOf | src/image/Cell.ts:56-79 | defines the colour of a list of records: each channel's sum over the count, rounded, `NaN` when a record lacks it or the list is empty |
| Cells.TotalDefined | src/image/Cell.ts:68-70 | a sum is a number exactly when every record has that channel |
| Cells.RoundQuotientBetween | src/image/Cell.ts:75-77 | the rounded mean of values in [lo, hi] lies in [lo, hi] |
| Cells.MeanBounds | src/image/Cell.ts:74-78 | the average component of channel values between lo and hi lies between lo and hi |
| Cells.AverageOfUniform | src/image/Cell.ts:56-79 | records of one colour average to that colour |
| Cells.AverageUndefined | src/image/Cell.ts:75-77 | a record without a channel, or an empty cell, makes that component `NaN` |
| Cells.Quantize | src/image/Cell.ts:102-107 | defines `Math.round(v / s) * s` for a positive integer s, `NaN` staying `NaN` |
| Cells.QuantizeNearest | src/image/Cell.ts:102-107 | `Math.round(v/s)*s` is the multiple of s nearest to v, a half rounding up |
| Cells.QuantizeByOne | src/image/Cell.ts:102-107 | with sensitivity 1, quantisation is the identity |
| Cells.KeysOf | src/image/Cell.ts:101-108 | one key per pixel, in order, each the quantised colour |
| Cells.Find | src/image/Cell.ts:109 | the colour-map lookup finds the first bucket with the key, or reports none |
| Cells.BumpShape | src/image/Cell.ts:109 | one `set` keeps keys distinct and counts positive, adds one to the total and at most one bucket |
| Cells.BumpCount | src/image/Cell.ts:109 | one `set` counts the key once more and every other key as before |
| Cells.Histogram | src/image/Cell.ts:101-110 | defines the colour map after counting the keys in order: a known key counts one more in place, a new key is appended with 1 |
| Cells.HistogramShape | src/image/Cell.ts:101-110 | distinct keys, positive counts summing to the number of pixels, no more buckets than pixels |
| Cells.HistogramCount | src/image/Cell.ts:101-110 | a key's count is its multiplicity among the pixels' keys |
| Cells.HistogramCounts | src/image/Cell.ts:101-110 | the shape and count facts together for one key |
| Cells.HistogramKeys | src/image/Cell.ts:101-110 | the map holds exactly the keys counted |
| Cells.HistogramUniform | src/image/Cell.ts:101-110 | n equal keys make one bucket of n |
| Cells.HistogramDistinct | src/image/Cell.ts:101-110 | pairwise distinct keys make one bucket of 1 each, in order |
| Cells.Entropy | src/image/Cell.ts:112-115 | defines the reduce: from 0, each bucket in map order subtracts `p * log2(p)` for `p = count / total` |
| Cells.EntropySingle | src/image/Cell.ts:112-115 | one bucket holding every pixel has entropy 0 when `log2(1) = 0` |
| Cells.EntropyUnits | src/image/Cell.ts:112-115 | m buckets of 1 out of n pixels have entropy `-(m/n)*log2(1/n)` |
| Cells.EntropyOfUniform | src/image/Cell.ts:95-115 | a region of one quantised colour has entropy 0 |
| Cells.KeyOfByOne | src/image/Cell.ts:102-108 | with sensitivity 1, a pixel's key is its own colour |
| Cells.EntropyOfFourColors | tests/image/Cell.test.ts:157-189 | four distinct colours with sensitivity 1 give four buckets of 1 and 2 bits of entropy |
| Cells.EmptyCellEntropy | src/image/Cell.ts:98 | a cell without pixels has entropy 0 |
| Cells.RectangleAsWritten | src/image/Cell.ts:163-173 | the box as written: xMin = x, yMin = y, yMax = y + height, the sizes copied, and xMax = y + width |
| Cells.RectangleAsWrittenMissesPixels | src/image/Cell.ts:166 | the cell at (2, 0) of size 2 × 2 gets a box that misses its own pixel (2, 0) |
| Cells.RectangleOfCovers | src/image/Cell.ts:163-173 | with xMax = x + width, the box spans the cell's extents and holds exactly the cell's pixels |
| Cells.CellAverage | src/image/Cell.ts:56-79 | defines the cell's average: the region read of its rectangle, then AverageOf, or the read's failure |
| Cells.CellEntropy | src/image/Cell.ts:87-116 | defines the cell's entropy: the region read, 0 for no pixels, otherwise the entropy of the colour map |
| Cells.CellImage | src/image/Cell.ts:189-208 | defines the cell's image: a PNG of size 0 with the store's channels, the cell's extents and its records in row-major order, or the read's failure |
| Cells.AverageFromTally | src/image/Cell.ts:56-79 | the average is each sum divided by the count and rounded |
| Cells.AverageFails | src/image/Cell.ts:67 | a failing read fails `getAverageColor` with its error |
| Cells.ImageFails | src/image/Cell.ts:193 | a failing read fails `getImageData` with its error |
| Cells.ImageFromRecords | src/image/Cell.ts:189-208 | the image is a PNG of size 0 with the store's channels, the cell's extents and its records |
| Cells.CellAverageUniform | tests/image/Cell.test.ts:112-116 | a non-empty cell of one colour averages to that colour |
| Cells.CellImageOf | src/image/Cell.ts:189-208 | a cell's image holds one record per read, in order, each reading back as that read |
| Cells.CellImageInside | src/image/Cell.ts:189-208 | a cell inside a complete image yields an image of its own extents with `width*height` pixels; pixel (px, py) reads at (px-x, py-y) as in the store |
| Cells.Cell.constructor | src/image/Cell.ts:29-35 | the cell keeps its origin, its extents and its store |
| Cells.Cell.HasPixels | src/image/Cell.ts:41-50 | the nested loops with early return compute the scan of the cell |
| Cells.Cell.ScanRow | src/image/Cell.ts:43-47 | the inner loop scans row py |
| Cells.Cell.GetAverageColor | src/image/Cell.ts:56-79 | the loops compute the cell's rounded average, or the first failing read's error |
| Cells.Cell.TallyRow | src/image/Cell.ts:62-72 | the inner loop adds row py's records to the running sums and count |
| Cells.Cell.GetEntropyWithColor | src/image/Cell.ts:87-116 | the region read, 0 for no pixels, otherwise the entropy of the colour map; the sensitivity defaults to 1 |
| Cells.Cell.CountColors | src/image/Cell.ts:101-110 | the counting loop builds the colour map of the pixels' keys |
| Cells.Cell.GetRectangle | src/image/Cell.ts:163-173 | the record as written; it equals the box of the cell's pixels exactly when x = y |
| Cells.Cell.GetRGBValuesForCoordinates | src/image/Cell.ts:181-183 | reads absolute image coordinates and fails exactly outside the image |
| Cells.Cell.GetImageData | src/image/Cell.ts:189-208 | the loops compute the cell's image, or the first failing read's error |
| Cells.Cell.PushRow | src/image/Cell.ts:192-195 | the inner loop appends row py's records |
| Grid.Min | src/image/partition.ts:21-22 | `Math.min`: at most either argument and equal to one of them |
| Grid.Candidate | src/image/partition.ts:19-25 | the candidate at (x, y) starts there; inside the image it is non-empty, at most a cell in size and ends within the image |
| Grid.Candidates | src/image/partition.ts:17-25 | defines the candidates: y from 0 by cellHeight, x from 0 by cellWidth, each clamped to the image (CandidatesMembership gives the independent description) |
| Grid.CandidatesMembership | src/image/partition.ts:17-18 | the candidates are exactly the lattice origins inside the image, with the clamped sizes |
| Grid.CandidatesInside | src/image/partition.ts:19-25 | every candidate has size `min(cellWidth, W-x) × min(cellHeight, H-y)`, is non-empty and lies inside the image |
| Grid.CandidatesEmpty | src/image/partition.ts:12 | a zero or negative width or height gives no candidate |
| Grid.CandidatesOrdered | src/image/partition.ts:17-18 | candidate origins strictly increase in row-major order, y outer and x inner |
| Grid.OwnerContains | src/image/partition.ts:17-25 | every pixel of the image lies in the candidate at its rounded-down lattice origin |
| Grid.OwnerUnique | src/image/partition.ts:17-25 | any candidate containing a pixel is that one |
| Grid.CoveredOnce | src/image/partition.ts:17-25 | every pixel of the image lies in exactly one candidate, and no pixel outside it lies in any |
| Grid.CandidatesDisjoint | src/image/partition.ts:17-25 | two different candidates share no pixel |
| Grid.CandidatesCount | src/image/partition.ts:17-18 | there are `ceil(W/cw)*ceil(H/ch)` candidates |
| Grid.CandidateCounts | tests/Cell.test.ts:7-21 | 20 × 20 in 10 × 10 cells makes 4 candidates, 25 × 25 makes 9 with 5 × 5 corner cells, and 4 × 4 in 2 × 2 makes 4 |
| Partition.Sweep | src/image/partition.ts:17-30 | defines the sweep: candidates in order, kept when `hasPixels` is true, stopped by the first `hasPixels` that fails |
| Partition.SweepSucceeds | src/image/partition.ts:26 | the partition completes exactly when every `hasPixels` succeeds |
| Partition.SweepKeeps | src/image/partition.ts:26-28 | only candidates whose `hasPixels` is true are kept, and a completed partition keeps every such candidate |
| Partition.SweepOrdered | src/image/partition.ts:17-28 | kept cells stay in the candidates' row-major order |
| Partition.SweepAll | src/image/partition.ts:26-28 | when every candidate has pixels, every candidate is kept |
| Partition.PartitionInside | src/image/partition.ts:17-28 | every kept cell is a candidate inside the image with the clamped size, and the kept cells are in row-major order |
| Partition.PartitionComplete | src/image/partition.ts:17-28 | when every pixel has a defined r, all `ceil(W/cw)*ceil(H/ch)` candidates are kept |
| Partition.PartitionCounts | tests/Cell.test.ts:7-21 | a fully set 20 × 20 image gives 4 cells of 10 × 10, a 25 × 25 one gives 9 |
| Partition.Visit | src/image/partition.ts:19-28 | one pass builds the clamped cell on the adapter, scans it and pushes it when it has pixels |
| Partition.SweepRow | src/image/partition.ts:18-29 | the inner loop sweeps row y's candidates onto the list; every cell added reads the given adapter |
| Partition.VisitRow | src/image/partition.ts:17-30 | one pass of the outer loop sweeps row y and goes on with the rows below |
| Partition.SweepRows | src/image/partition.ts:17-30 | the outer loop sweeps every candidate onto the list in row-major order |
| Partition.PartitionImageIntoCells | src/image/partition.ts:12-31 | with the grid sized by the stored image's width and height: the cells of the kept candidates in row-major order, each on the given adapter; the first failing `hasPixels` fails the call; a zero width or height gives `[]` |
| Partition.MetadataSweep | src/image/partition.ts:11-31 | defines the partition as written: no cell when the destructured width or height is `undefined` or 0, otherwise the sweep of that grid |
| Partition.PartitionImageIntoCellsAsWritten | src/image/partition.ts:5-32 | with the grid sized by what `getMetadata()` destructures to: the cells of MetadataSweep on the given adapter, or the first `hasPixels` failure; `[]` when a side is `undefined` or 0 |
| Partition.MetadataPartitionLosesCells | src/image/partition.ts:11-12 | over the pixel-record store, a 4 × 4 image of set pixels in 2 × 2 cells partitions to no cell as written and to 4 cells with the image's dimensions |
| Manager.FirstAt | src/managers/CellManager.ts:40-42 | `find`: the first position whose cell has origin (x, y), or none when no cell has it |
| Manager.Without | src/managers/CellManager.ts:48-50 | `filter(c => c !== cell)`: every other cell and no copy of that one |
| Manager.WithoutAppend | src/managers/CellManager.ts:48-50 | filtering works part by part, so the remaining cells keep their order |
| Manager.CellManager.constructor | src/managers/CellManager.ts:8-13 | a new manager holds no cell |
| Manager.CellManager.AddCell | src/managers/CellManager.ts:30-32 | the cell goes at the end; earlier entries stay as they were |
| Manager.CellManager.GetCell | src/managers/CellManager.ts:40-42 | the first cell in insertion order with origin (x, y); none exactly when no cell has that origin |
| Manager.CellManager.RemoveCell | src/managers/CellManager.ts:48-50 | every occurrence of that instance goes and the rest stay in order |
| Manager.CellManager.PartitionCellsFromImage | src/managers/CellManager.ts:58-80 | the old list followed by the kept candidates of the stored image's dimensions, each on the given adapter; a partition failure leaves the cells pushed before it; a zero width or height adds nothing (with `Partition.PartitionInside`, each added cell lies inside the image with the clamped size) |
| Manager.ManagerAddsFour | tests/managers/CellManager.test.ts:137-140 | a fully set 4 × 4 image in 2 × 2 cells adds 4 cells |
| Manager.RemoveKeepsTwin | tests/managers/CellManager.test.ts:101-106 | removing a cell keeps a different cell with the same origin, which `getCell` then finds |

## Left out

- `src/image/adapters/JimpAdapter.ts` is not part of this model. It wraps an image library.
- Canvas and file calls are left out: `toBuffer`, `toFile`, `createCanvas`, `putImageData`,
  `loadImage`, `drawImage`, the canvas `getImageData`, and the `fillStyle`/`fillRect` write
  of `setChannelValuesForPixel`. `CanvasStore.NodeCanvasAdapter.FromFile` takes the decoded
  width, height and bytes as parameters.
- `getEntropyGreyscale` is left out. Its ITU-R BT.601 luma weights are floating point.
- `Cells.Cell.GetEntropyWithColor`: `Math.log2` is a parameter `log2`, and the entropy is an
  exact real, not an IEEE double. Only the integer colour histogram is modelled exactly.
- Colour-map keys: the string key `${r},${g},${b}` is a triple of quantised values. Distinct
  numbers render as distinct strings, so both identify the same buckets.
- `Cells.Cell.GetEntropyWithColor` requires a positive integer `colorSensitivity`; like the
  source it defaults to 1. The source also accepts the rest. With 0, every key becomes
  `NaN,NaN,NaN`, so the entropy is 0. A negative or fractional sensitivity quantises in
  floating point, and the model does not cover those.
- Sums and averages are exact integers. A JavaScript number is exact only up to 2^53.
- `async` and `Promise` are ordinary sequential calls.
- The singleton `CellManager.getInstance` is left out. Models create ordinary instances.
- Both partitioners require `cellWidth > 0` and `cellHeight > 0`, because the source loops
  forever otherwise.
- `Partition.PartitionImageIntoCellsAsWritten` takes as a parameter the `{ width, height }`
  that `getMetadata()` resolves to. The abstract adapter declares that shape, and an
  adapter that reports dimensions passes them here. Over the pixel-record store both are
  `undefined` (`CanvasStore.MetadataDimensions`), so the source as written returns `[]` for
  every image (see Findings).
- The guard `!width || !height` is modelled for `undefined` and for 0. A `NaN` dimension is
  not modelled. A negative size gives no candidate either way.
- `CanvasStore.NodeCanvasAdapter.GetImageData` is inherited from a revision of the base class
  that is not part of this model. It is modelled as returning the stored image record, as
  its callers use it.
- `CanvasStore.NodeCanvasAdapter.SetChannelValuesForPixel` does not repaint the canvas
  (`fillStyle` and `fillRect(x, y, 1, 1)`, `src/image/adapters/NodeCanvasAdapter.ts:107-110`). The
  packed buffer `surface` keeps the bytes packed at construction.
- `Manager.CellManager.PartitionCellsFromImage` leaves out the unused `getMetadata()` call
  (`src/managers/CellManager.ts:59`).
- Cells read through the pixel-record store only. The flat-buffer revision returns three
  planes, which `Cell` does not use.
- The limits of JavaScript arrays and `Uint8Array` lengths are not modelled.

## Findings

| source | as written | input that shows it | evidently intended | confidence | as-written member | corrected member |
|---|---|---|---|---|---|---|
| src/image/partition.ts:11-12 | `const { width, height } = await imageAdapter.getMetadata()` on the pixel-record store, whose metadata has only format, size and channels | a 4 × 4 image of set pixels in 2 × 2 cells: `width` is `undefined`, so the guard returns `[]` | the image's own dimensions, as `partitionCellsFromImage` reads them from `getImageData()` (`src/managers/CellManager.ts:60-61`), giving 4 cells | not executed | Partition.MetadataPartitionLosesCells | Partition.PartitionImageIntoCells |
| src/image/Cell.ts:166 | `xMax: this.y + this.width` | a 2 × 2 cell at x = 2, y = 0 gets xMin = xMax = 2, a box without its pixel (2, 0) | `xMax: this.x + this.width` | not executed | Cells.RectangleAsWrittenMissesPixels | Cells.RectangleOfCovers |
