/**
 * The rendering driver of src/main.cpp (and its copy in main.cpp): each worker's
 * scan_vertical fills its own buffer with one rgb per pixel of its rows, the shared progress
 * counter drops by one per finished row, and `main` writes the buffers in thread order after
 * the PPM header. The workers run one after the other here; the threads, the mutex, the
 * polling loops and the joins are not modelled.
 */
module Scan {

  import opened Vectors
  import opened Rays
  import opened Image
  import opened RowPartition
  import opened Ppm

  /** What a pixel's samples depend on besides the loop indices. `camera(u, v)` is
      camera.get_ray(u, v) (camera.h is not part of this model); `jitter(j, i, s)` are the two
      random_double() draws of sample s of pixel (i, j); `rayColor(r, j, i, s)` is
      ray_color(r, world, MAX_DEPTH) with that sample's own random draws; `writeColor` is
      write_color's conversion of the summed colour (color.h is not part of this model). */
  datatype Scene = Scene(camera: (real, real) -> Ray, jitter: (int, int, int) -> (real, real),
                         rayColor: (Ray, int, int, int) -> Vec3, writeColor: Vec3 -> Rgb)

  /** The colour of sample s of pixel (i, j). */
  function Sample(scene: Scene, j: int, i: int, s: int): Vec3 {
    var draws := scene.jitter(j, i, s);
    var u := (i as real + draws.0) / (ImageWidth - 1) as real;
    var v := (j as real + draws.1) / (ImageHeight - 1) as real;
    scene.rayColor(scene.camera(u, v), j, i, s)
  }

  /** The sum of the first n samples of pixel (i, j). */
  function SampleSum(scene: Scene, j: int, i: int, n: nat): Vec3 {
    if n == 0 then Zero else Add(SampleSum(scene, j, i, n - 1), Sample(scene, j, i, n - 1))
  }

  /** The rgb written for pixel (i, j). */
  function PixelColor(scene: Scene, j: int, i: int): Rgb {
    scene.writeColor(SampleSum(scene, j, i, SamplesPerPixel))
  }

  /** The pixels of row j, left to right. */
  function RowPixels(scene: Scene, j: int): (row: seq<Rgb>)
    ensures |row| == ImageWidth
  {
    seq(ImageWidth, i requires 0 <= i < ImageWidth => PixelColor(scene, j, i))
  }

  /** The pixels of the given rows, row after row. */
  function PixelsOfRows(scene: Scene, rows: seq<int>): seq<Rgb> {
    if |rows| == 0 then []
    else PixelsOfRows(scene, rows[..|rows| - 1]) + RowPixels(scene, rows[|rows| - 1])
  }

  /** The buffers concatenated in order. */
  function Flatten(buffers: seq<seq<Rgb>>): seq<Rgb> {
    if |buffers| == 0 then [] else Flatten(buffers[..|buffers| - 1]) + buffers[|buffers| - 1]
  }

  /** The global `progress` counter. */
  class Progress {
    var remaining: int

    constructor (initial: int)
      ensures remaining == initial
    {
      remaining := initial;
    }

    /** progress-- */
    method Decrement()
      modifies this
      ensures remaining == old(remaining) - 1
    {
      remaining := remaining - 1;
    }
  }

  /** The sample loop of scan_vertical for pixel (i, j): SAMPLES_PER_PIXEL colours summed into
      `pixel_color`, which write_color turns into the pixel's rgb. */
  method RenderPixel(scene: Scene, j: int, i: int) returns (c: Rgb)
    ensures c == PixelColor(scene, j, i)
  {
    var pixelColor := new MutableVec3(Zero);
    var s := 0;
    while s < SamplesPerPixel
      invariant 0 <= s <= SamplesPerPixel
      invariant pixelColor.e == SampleSum(scene, j, i, s)
    {
      pixelColor.AddAssign(Sample(scene, j, i, s));
      s := s + 1;
    }
    c := scene.writeColor(pixelColor.e);
  }

  /** The pixel loop of scan_vertical for row j: the row's pixels appended left to right. */
  method ScanRow(colors: seq<Rgb>, scene: Scene, j: int) returns (out: seq<Rgb>)
    ensures out == colors + RowPixels(scene, j)
  {
    out := colors;
    var i := 0;
    while i < ImageWidth
      invariant 0 <= i <= ImageWidth
      invariant out == colors + RowPixels(scene, j)[..i]
    {
      var c := RenderPixel(scene, j, i);
      assert RowPixels(scene, j)[..i + 1] == RowPixels(scene, j)[..i] + [c];
      out := out + [c];
      i := i + 1;
    }
    assert RowPixels(scene, j)[..ImageWidth] == RowPixels(scene, j);
  }

  /** scan_vertical(colors, start, end, ...): rows start down to end, every pixel of a row
      left to right, each the sum of SAMPLES_PER_PIXEL samples, and `progress` one lower after
      each row; `out` is the buffer afterwards. */
  method ScanVertical(colors: seq<Rgb>, start: int, end: int, scene: Scene, progress: Progress)
    returns (out: seq<Rgb>)
    modifies progress
    ensures out == colors + PixelsOfRows(scene, Rows(start, end))
    ensures progress.remaining == old(progress.remaining) - |Rows(start, end)|
  {
    out := colors;
    var j := start;
    ghost var rows: seq<int> := [];
    while j >= end
      invariant j <= start && (start >= end ==> j >= end - 1) && (start < end ==> j == start)
      invariant rows == Rows(start, j + 1)
      invariant out == colors + PixelsOfRows(scene, rows)
      invariant progress.remaining == old(progress.remaining) - |rows|
      decreases j - end + 1
    {
      ScannedOneRow(scene, colors, out, rows, start, j);
      out := ScanRow(out, scene, j);
      progress.Decrement();
      rows := rows + [j];
      j := j - 1;
    }
    ScanFinished(start, end, j);
  }

  /** What `main` leaves behind: the lines written to standard output and the final value of
      `progress`; or the division by zero of a zero thread count. */
  datatype Rendered = Rendered(lines: seq<string>, remaining: int) | DivisionByZero

  /** The workers, one after the other: worker i scans ranges[i] into its own buffer
      final_colors[i], and every finished row lowers the shared `progress`. */
  method ScanRanges(ranges: seq<Range>, scene: Scene, progress: Progress)
    returns (buffers: seq<seq<Rgb>>)
    modifies progress
    ensures |buffers| == |ranges|
    ensures forall i :: 0 <= i < |ranges| ==>
              buffers[i] == PixelsOfRows(scene, Rows(ranges[i].start, ranges[i].end))
    ensures Flatten(buffers) == PixelsOfRows(scene, AllRows(ranges))
    ensures progress.remaining == old(progress.remaining) - |AllRows(ranges)|
  {
    buffers := [];
    var i := 0;
    while i < |ranges|
      invariant 0 <= i <= |ranges|
      invariant |buffers| == i
      invariant forall k :: 0 <= k < i ==>
                  buffers[k] == PixelsOfRows(scene, Rows(ranges[k].start, ranges[k].end))
      invariant Flatten(buffers) == PixelsOfRows(scene, AllRows(ranges[..i]))
      invariant progress.remaining == old(progress.remaining) - |AllRows(ranges[..i])|
    {
      var colors := ScanVertical([], ranges[i].start, ranges[i].end, scene, progress);
      ScannedOneMore(scene, ranges, i, buffers, colors);
      BufferedOneMore(scene, ranges, i, buffers, colors);
      buffers := buffers + [colors];
      i := i + 1;
    }
    assert ranges[..i] == ranges;
  }

  /** `for (auto& c : final_colors[t]) std::cout << c.r << ' ' << c.g << ' ' << c.b << '\n';` */
  method WriteBuffer(lines: seq<string>, buffer: seq<Rgb>) returns (out: seq<string>)
    ensures out == lines + PixelLines(buffer)
  {
    out := lines;
    var c := 0;
    while c < |buffer|
      invariant 0 <= c <= |buffer|
      invariant out == lines + PixelLines(buffer[..c])
    {
      WroteOnePixel(lines, buffer, c);
      out := out + [PixelLine(buffer[c])];
      c := c + 1;
    }
    assert buffer[..c] == buffer;
  }

  /** The buffers written in thread order. */
  method WriteBuffers(lines: seq<string>, buffers: seq<seq<Rgb>>) returns (out: seq<string>)
    ensures out == lines + PixelLines(Flatten(buffers))
  {
    out := lines;
    var t := 0;
    while t < |buffers|
      invariant 0 <= t <= |buffers|
      invariant out == lines + PixelLines(Flatten(buffers[..t]))
    {
      out := WriteBuffer(out, buffers[t]);
      WroteOneMore(lines, buffers, t);
      t := t + 1;
    }
    assert buffers[..t] == buffers;
  }

  /** `main` after the world and camera are built: partition, scan every range into its own
      buffer, write the header and the buffers in thread order. */
  method Render(threadCount: nat, scene: Scene) returns (res: Rendered)
    ensures threadCount == 0 ==> res == Rendered.DivisionByZero
    ensures threadCount > 0 ==>
              var rows := AllRows(Partition(ImageHeight, threadCount).ranges);
              res == Rendered(PpmText(PixelsOfRows(scene, rows)), ImageHeight - |rows|)
    ensures threadCount >= 2 ==>
              res == Rendered(PpmText(PixelsOfRows(scene, Rows(ImageHeight - 1, 0))), 0)
    ensures threadCount == 1 ==>
              res.Rendered? && res.remaining == -1 &&
              |res.lines| == 3 + (ImageHeight + 1) * ImageWidth
  {
    var progress := new Progress(ImageHeight);
    var split := SplitRows(ImageHeight, threadCount);
    if split.DivisionByZero? {
      return Rendered.DivisionByZero;
    }
    var buffers := ScanRanges(split.ranges, scene, progress);
    var lines := WriteBuffers(Header(), buffers);
    res := Rendered(lines, progress.remaining);
    RenderFacts(ImageHeight, threadCount, scene);
  }

  // ---------------------------------------------------------------------------------------
  // Properties

  /** The rows of a partition appended one range at a time. */
  lemma {:induction false} AllRowsSnoc(ranges: seq<Range>, last: Range)
    ensures AllRows(ranges + [last]) == AllRows(ranges) + Rows(last.start, last.end)
    decreases |ranges|
  {
    if |ranges| == 0 {
      assert AllRows([last]) == Rows(last.start, last.end) + AllRows([]);
    } else {
      assert (ranges + [last])[1..] == ranges[1..] + [last];
      AllRowsSnoc(ranges[1..], last);
    }
  }

  /** Flattening after appending a buffer appends its pixels. */
  lemma FlattenSnoc(buffers: seq<seq<Rgb>>, last: seq<Rgb>)
    ensures Flatten(buffers + [last]) == Flatten(buffers) + last
  {
    assert (buffers + [last])[..|buffers|] == buffers;
  }

  /** One more worker's buffer keeps the scan loop's invariant. */
  lemma ScannedOneMore(scene: Scene, ranges: seq<Range>, i: int, buffers: seq<seq<Rgb>>,
                       colors: seq<Rgb>)
    requires 0 <= i < |ranges|
    requires Flatten(buffers) == PixelsOfRows(scene, AllRows(ranges[..i]))
    requires colors == PixelsOfRows(scene, Rows(ranges[i].start, ranges[i].end))
    ensures Flatten(buffers + [colors]) == PixelsOfRows(scene, AllRows(ranges[..i + 1]))
    ensures |AllRows(ranges[..i + 1])| == |AllRows(ranges[..i])| + |Rows(ranges[i].start, ranges[i].end)|
  {
    assert ranges[..i + 1] == ranges[..i] + [ranges[i]];
    AllRowsSnoc(ranges[..i], ranges[i]);
    PixelsOfRowsConcat(scene, AllRows(ranges[..i]), Rows(ranges[i].start, ranges[i].end));
    FlattenSnoc(buffers, colors);
  }

  /** One more worker's buffer keeps the per-worker part of the scan loop's invariant. */
  lemma BufferedOneMore(scene: Scene, ranges: seq<Range>, i: int, buffers: seq<seq<Rgb>>,
                        colors: seq<Rgb>)
    requires 0 <= i < |ranges| && |buffers| == i
    requires forall k :: 0 <= k < i ==>
               buffers[k] == PixelsOfRows(scene, Rows(ranges[k].start, ranges[k].end))
    requires colors == PixelsOfRows(scene, Rows(ranges[i].start, ranges[i].end))
    ensures forall k :: 0 <= k < i + 1 ==>
              (buffers + [colors])[k] == PixelsOfRows(scene, Rows(ranges[k].start, ranges[k].end))
  {
    forall k | 0 <= k < i + 1
      ensures (buffers + [colors])[k] == PixelsOfRows(scene, Rows(ranges[k].start, ranges[k].end))
    {
      if k < i {
        assert (buffers + [colors])[k] == buffers[k];
      }
    }
  }

  /** Writing one more pixel keeps the pixel loop's invariant. */
  lemma WroteOnePixel(lines: seq<string>, buffer: seq<Rgb>, c: int)
    requires 0 <= c < |buffer|
    ensures lines + PixelLines(buffer[..c]) + [PixelLine(buffer[c])] ==
            lines + PixelLines(buffer[..c + 1])
  {
    assert buffer[..c + 1] == buffer[..c] + [buffer[c]];
    PixelLinesConcat(buffer[..c], [buffer[c]]);
    assert PixelLines([buffer[c]]) == [PixelLine(buffer[c])] by {
      PixelLineAt([buffer[c]], 0);
    }
  }

  /** Writing one more buffer keeps the write loop's invariant. */
  lemma WroteOneMore(lines: seq<string>, buffers: seq<seq<Rgb>>, t: int)
    requires 0 <= t < |buffers|
    ensures lines + PixelLines(Flatten(buffers[..t])) + PixelLines(buffers[t]) ==
            lines + PixelLines(Flatten(buffers[..t + 1]))
  {
    assert buffers[..t + 1] == buffers[..t] + [buffers[t]];
    FlattenSnoc(buffers[..t], buffers[t]);
    PixelLinesConcat(Flatten(buffers[..t]), buffers[t]);
  }

  /** One more turn of scan_vertical's row loop appends row j's pixels to the buffer. */
  lemma ScannedOneRow(scene: Scene, colors: seq<Rgb>, out: seq<Rgb>, rows: seq<int>,
                      start: int, j: int)
    requires j <= start && rows == Rows(start, j + 1)
    requires out == colors + PixelsOfRows(scene, rows)
    ensures rows + [j] == Rows(start, j)
    ensures out + RowPixels(scene, j) == colors + PixelsOfRows(scene, rows + [j])
  {
    var next := rows + [j];
    assert next[..|next| - 1] == rows && next[|next| - 1] == j;
  }

  /** When scan_vertical's row loop stops, it has scanned exactly the rows start down to end. */
  lemma ScanFinished(start: int, end: int, j: int)
    requires j < end && (start >= end ==> j >= end - 1) && (start < end ==> j == start)
    ensures Rows(start, j + 1) == Rows(start, end)
  {
  }

  /** Scanning two runs of rows one after the other gives their pixels one after the other. */
  lemma {:induction false} PixelsOfRowsConcat(scene: Scene, a: seq<int>, b: seq<int>)
    ensures PixelsOfRows(scene, a + b) == PixelsOfRows(scene, a) + PixelsOfRows(scene, b)
    decreases |b|
  {
    if |b| == 0 {
      assert a + b == a;
    } else {
      var front := b[..|b| - 1];
      assert (a + b)[..|a + b| - 1] == a + front;
      PixelsOfRowsConcat(scene, a, front);
    }
  }

  /** A worker's buffer holds IMAGE_WIDTH pixels per row, and the pixel at k * IMAGE_WIDTH + i
      is pixel i of its k-th row. */
  lemma {:induction false} PixelsOfRowsLayout(scene: Scene, rows: seq<int>)
    ensures |PixelsOfRows(scene, rows)| == |rows| * ImageWidth
    ensures forall k, i :: 0 <= k < |rows| && 0 <= i < ImageWidth ==>
              PixelsOfRows(scene, rows)[k * ImageWidth + i] == PixelColor(scene, rows[k], i)
  {
    PixelsOfRowsLength(scene, rows);
    forall k, i | 0 <= k < |rows| && 0 <= i < ImageWidth
      ensures PixelsOfRows(scene, rows)[k * ImageWidth + i] == PixelColor(scene, rows[k], i)
    {
      PixelOfRowsAt(scene, rows, k, i);
    }
  }

  lemma {:induction false} PixelsOfRowsLength(scene: Scene, rows: seq<int>)
    ensures |PixelsOfRows(scene, rows)| == |rows| * ImageWidth
    decreases |rows|
  {
    if |rows| > 0 {
      PixelsOfRowsLength(scene, rows[..|rows| - 1]);
    }
  }

  lemma {:induction false} PixelOfRowsAt(scene: Scene, rows: seq<int>, k: int, i: int)
    requires 0 <= k < |rows| && 0 <= i < ImageWidth
    ensures k * ImageWidth + i < |PixelsOfRows(scene, rows)|
    ensures PixelsOfRows(scene, rows)[k * ImageWidth + i] == PixelColor(scene, rows[k], i)
    decreases |rows|
  {
    var front := rows[..|rows| - 1];
    var last := RowPixels(scene, rows[|rows| - 1]);
    PixelsOfRowsLength(scene, front);
    assert PixelsOfRows(scene, rows) == PixelsOfRows(scene, front) + last;
    if k < |front| {
      PixelOfRowsAt(scene, front, k, i);
      assert front[k] == rows[k];
    } else {
      assert k * ImageWidth + i == |PixelsOfRows(scene, front)| + i;
      assert last[i] == PixelColor(scene, rows[k], i);
    }
  }

  /** The buffer of scan_vertical(start, end) holds (start - end + 1) * IMAGE_WIDTH pixels when
      start >= end and none otherwise. */
  lemma ScanBufferLength(scene: Scene, start: int, end: int)
    ensures |PixelsOfRows(scene, Rows(start, end))| ==
            (if start >= end then (start - end + 1) * ImageWidth else 0)
  {
    RowsShape(start, end);
    PixelsOfRowsLayout(scene, Rows(start, end));
  }

  /** With two threads or more every row is scanned once, the image comes out top to bottom
      and `progress` ends at 0; with one thread row -1 is scanned too, so IMAGE_WIDTH extra
      pixels are written and `progress` ends at -1. */
  lemma RenderFacts(height: nat, threadCount: nat, scene: Scene)
    requires height >= 1
    ensures threadCount >= 2 ==>
              var rows := AllRows(Partition(height, threadCount).ranges);
              rows == Rows(height - 1, 0) && height - |rows| == 0
    ensures threadCount == 1 ==>
              var rows := AllRows(Partition(height, threadCount).ranges);
              height - |rows| == -1 &&
              |PpmText(PixelsOfRows(scene, rows))| == 3 + (height + 1) * ImageWidth
  {
    if threadCount >= 2 {
      PartitionCoversRows(height, threadCount);
      RowsShape(height - 1, 0);
    }
    if threadCount == 1 {
      SingleThreadScansRowMinusOne(height);
      var rows := AllRows(Partition(height, 1).ranges);
      PixelsOfRowsLayout(scene, rows);
      PpmTextLayout(PixelsOfRows(scene, rows));
    }
  }

  /** In the image written with two threads or more, line 3 + k * IMAGE_WIDTH + i is pixel i
      of row IMAGE_HEIGHT - 1 - k: the top row first. */
  lemma ImageIsTopToBottom(scene: Scene, k: int, i: int)
    requires 0 <= k < ImageHeight && 0 <= i < ImageWidth
    ensures var text := PpmText(PixelsOfRows(scene, Rows(ImageHeight - 1, 0)));
            |text| == 3 + ImageHeight * ImageWidth &&
            text[3 + k * ImageWidth + i] == PixelLine(PixelColor(scene, ImageHeight - 1 - k, i))
  {
    TopToBottom(scene, ImageHeight, k, i);
  }

  lemma TopToBottom(scene: Scene, height: int, k: int, i: int)
    requires 0 <= k < height && 0 <= i < ImageWidth
    ensures var text := PpmText(PixelsOfRows(scene, Rows(height - 1, 0)));
            |text| == 3 + height * ImageWidth &&
            text[3 + k * ImageWidth + i] == PixelLine(PixelColor(scene, height - 1 - k, i))
  {
    var pixels := PixelsOfRows(scene, Rows(height - 1, 0));
    var text := PpmText(pixels);
    PixelFromTop(scene, height, k, i);
    assert |text| == 3 + height * ImageWidth;
    assert text[3 + k * ImageWidth + i] == PixelLine(PixelColor(scene, height - 1 - k, i)) by {
      LineAfterHeader(Header(), pixels, k * ImageWidth + i);
    }
  }

  /** In the buffer of rows height - 1 down to 0, pixel k * IMAGE_WIDTH + i is pixel i of row
      height - 1 - k. */
  lemma PixelFromTop(scene: Scene, height: int, k: int, i: int)
    requires 0 <= k < height && 0 <= i < ImageWidth
    ensures |PixelsOfRows(scene, Rows(height - 1, 0))| == height * ImageWidth
    ensures 0 <= k * ImageWidth + i < height * ImageWidth
    ensures PixelsOfRows(scene, Rows(height - 1, 0))[k * ImageWidth + i] ==
            PixelColor(scene, height - 1 - k, i)
  {
    var rows := Rows(height - 1, 0);
    RowsShape(height - 1, 0);
    PixelsOfRowsLength(scene, rows);
    PixelOfRowsAt(scene, rows, k, i);
  }
}
