/** The command stream the driver sends to the SH1106/SSD1306 controller:
    the fixed initialisation sequence and the page-by-page flush of the
    framebuffer, as sequences of bus frames. */
module Controller {
  import opened Geometry
  import opened Framebuffer
  import opened Bus

  /** Number of command transactions in the initialisation. */
  const InitLength: nat := 25

  /** Initialisation opcode or argument number k, in the order sent. */
  function InitOpcode(k: nat): (op: bv8)
    requires k < InitLength
    ensures op == 0xAE <==> k == 0
    ensures op == 0xAF <==> k == InitLength - 1
  {
    match k
    case 0 => 0xAE
    case 1 => 0xD5
    case 2 => 0x80
    case 3 => 0xA8
    case 4 => 0x3F
    case 5 => 0xD3
    case 6 => 0x00
    case 7 => 0x40
    case 8 => 0x8D
    case 9 => 0x14
    case 10 => 0x20
    case 11 => 0x00
    case 12 => 0xA1
    case 13 => 0xC8
    case 14 => 0xDA
    case 15 => 0x12
    case 16 => 0x81
    case 17 => 0xCF
    case 18 => 0xD9
    case 19 => 0xF1
    case 20 => 0xDB
    case 21 => 0x40
    case 22 => 0xA4
    case 23 => 0xA6
    case _ => 0xAF
  }

  /** Low and high nibble of the start column sent before each page. */
  const ColumnLow: bv8 := 0x01
  const ColumnHigh: bv8 := 0x10

  /** Frames of the first n initialisation transactions. */
  function InitPrefix(n: nat): (r: seq<seq<bv8>>)
    requires n <= InitLength
    ensures |r| == n
  {
    seq(n, k requires 0 <= k < n => CommandFrame(InitOpcode(k)))
  }

  /** Frames sent by the initialisation. */
  function InitTrace(): (r: seq<seq<bv8>>)
    ensures |r| == InitLength
  {
    InitPrefix(InitLength)
  }

  /** The initialisation is 25 command transactions carrying the literal
      opcodes in order, from display-off to display-on, and no data. */
  lemma InitTraceShape()
    ensures |InitTrace()| == 25
    ensures forall i | 0 <= i < InitLength :: Parse(InitTrace()[i]) == Some(Command(InitOpcode(i)))
    ensures InitOpcode(0) == 0xAE && InitOpcode(InitLength - 1) == 0xAF
  {
    forall i | 0 <= i < InitLength
      ensures Parse(InitTrace()[i]) == Some(Command(InitOpcode(i)))
    {
      ParseEncode(InitTrace()[i], Command(InitOpcode(i)));
    }
  }

  /** Set-page-address opcode for a page. */
  function PageCommand(page: nat): (c: bv8)
    requires page < Pages
    ensures 0xB0 <= c <= 0xB7 && c - 0xB0 == page as bv8
  {
    (0xB0 + page) as bv8
  }

  /** Frames for one page: page address, start column, then one data
      transaction of Width bytes taken from `offset`. */
  function PageFrames(buf: seq<bv8>, page: nat, offset: nat): (r: seq<seq<bv8>>)
    requires page < Pages && offset + Width <= |buf|
    ensures |r| == 4
  {
    [CommandFrame(PageCommand(page)), CommandFrame(ColumnLow), CommandFrame(ColumnHigh),
     DataFrame(buf[offset..offset + Width])]
  }

  /** Offsets from which the as-written flush takes pages 0 .. n-1:
      `page * Width / 8`. Every slice ends by byte 240. */
  function AsWrittenOffsets(n: nat): (r: seq<nat>)
    requires n <= Pages
    ensures |r| == n && forall p | 0 <= p < n :: r[p] + Width <= 240
  {
    seq(n, p => p * Width / 8)
  }

  /** Offsets at which plotting stores pages 0 .. n-1: `page * Width`.
      Every slice lies inside the framebuffer. */
  function PageStarts(n: nat): (r: seq<nat>)
    requires n <= Pages
    ensures |r| == n && forall p | 0 <= p < n :: r[p] + Width <= BufferSize
  {
    seq(n, p => p * Width)
  }

  /** At most one offset per page, each the start of a Width-byte slice of buf. */
  predicate SlicesFit(buf: seq<bv8>, offsets: seq<nat>) {
    |offsets| <= Pages && forall p | 0 <= p < |offsets| :: offsets[p] + Width <= |buf|
  }

  /** Frames for pages 0 .. |offsets|-1, page p taken from offsets[p]. */
  function FlushPages(buf: seq<bv8>, offsets: seq<nat>): (r: seq<seq<bv8>>)
    requires SlicesFit(buf, offsets)
    ensures |r| == 4 * |offsets|
    decreases |offsets|
  {
    if offsets == [] then []
    else
      var n := |offsets| - 1;
      FlushPages(buf, offsets[..n]) + PageFrames(buf, n, offsets[n])
  }

  /** The flush as written: page p is taken from offset `page * Width / 8`. */
  function FlushTrace(buf: seq<bv8>): (r: seq<seq<bv8>>)
    requires IsFrame(buf)
    ensures |r| == 4 * Pages
  {
    FlushPages(buf, AsWrittenOffsets(Pages))
  }

  /** The flush with page p taken from offset `page * Width`, where
      plotting stores that page. */
  function FlushTraceCorrected(buf: seq<bv8>): (r: seq<seq<bv8>>)
    requires IsFrame(buf)
    ensures |r| == 4 * Pages
  {
    FlushPages(buf, PageStarts(Pages))
  }

  /** The as-written flush of one more page appends that page's frames. */
  lemma FlushAsWrittenStep(buf: seq<bv8>, page: nat)
    requires IsFrame(buf) && page < Pages
    ensures FlushPages(buf, AsWrittenOffsets(page + 1)) ==
            FlushPages(buf, AsWrittenOffsets(page)) + PageFrames(buf, page, page * Width / 8)
  {
    assert AsWrittenOffsets(page + 1)[..page] == AsWrittenOffsets(page);
  }

  /** The corrected flush of one more page appends that page's frames. */
  lemma FlushCorrectedStep(buf: seq<bv8>, page: nat)
    requires IsFrame(buf) && page < Pages
    ensures FlushPages(buf, PageStarts(page + 1)) ==
            FlushPages(buf, PageStarts(page)) + PageFrames(buf, page, page * Width)
  {
    assert PageStarts(page + 1)[..page] == PageStarts(page);
  }

  /** Four frames per page, in page order: three commands, then the data
      frame carrying the Width bytes from the page's offset. */
  lemma {:induction false} FlushPagesShape(buf: seq<bv8>, offsets: seq<nat>, p: nat)
    requires SlicesFit(buf, offsets) && p < |offsets|
    ensures forall j | 0 <= j < 4 :: FlushPages(buf, offsets)[4 * p + j] == PageFrames(buf, p, offsets[p])[j]
  {
    var n := |offsets| - 1;
    var prefix, last := FlushPages(buf, offsets[..n]), PageFrames(buf, n, offsets[n]);
    assert FlushPages(buf, offsets) == prefix + last;
    if p < n {
      FlushPagesShape(buf, offsets[..n], p);
      assert offsets[..n][p] == offsets[p];
    }
    forall j | 0 <= j < 4
      ensures (prefix + last)[4 * p + j] == PageFrames(buf, p, offsets[p])[j]
    {
      if p < n {
        assert (prefix + last)[4 * p + j] == prefix[4 * p + j];
      } else {
        assert (prefix + last)[4 * p + j] == last[j];
      }
    }
  }

  /** Read back through the bus format, one page's frames are the three
      addressing commands and the data of the page's slice. */
  lemma PageFramesParse(buf: seq<bv8>, page: nat, offset: nat)
    requires page < Pages && offset + Width <= |buf|
    ensures var f := PageFrames(buf, page, offset);
            Parse(f[0]) == Some(Command(PageCommand(page))) &&
            Parse(f[1]) == Some(Command(ColumnLow)) &&
            Parse(f[2]) == Some(Command(ColumnHigh)) &&
            Parse(f[3]) == Some(Data(buf[offset..offset + Width]))
  {
  }

  /** Frames 4p .. 4p+3 of a flush, read back through the bus format. */
  lemma FlushPagesParse(buf: seq<bv8>, offsets: seq<nat>, p: nat)
    requires SlicesFit(buf, offsets) && p < |offsets|
    ensures var r := FlushPages(buf, offsets);
            Parse(r[4 * p]) == Some(Command(PageCommand(p))) &&
            Parse(r[4 * p + 1]) == Some(Command(ColumnLow)) &&
            Parse(r[4 * p + 2]) == Some(Command(ColumnHigh)) &&
            Parse(r[4 * p + 3]) == Some(Data(buf[offsets[p]..offsets[p] + Width]))
  {
    var r, f := FlushPages(buf, offsets), PageFrames(buf, p, offsets[p]);
    FlushPagesShape(buf, offsets, p);
    PageFramesParse(buf, p, offsets[p]);
    assert r[4 * p] == f[0] && r[4 * p + 1] == f[1];
    assert r[4 * p + 2] == f[2] && r[4 * p + 3] == f[3];
  }

  /** The as-written flush: 32 frames; page p sends 0xB0+p, 0x01, 0x10 and then
      the 128 bytes starting at p * 16, all inside the buffer (the last slice
      ends at byte 240). */
  lemma FlushTraceShape(buf: seq<bv8>, p: nat)
    requires IsFrame(buf) && p < Pages
    ensures |FlushTrace(buf)| == 32
    ensures p * 16 + Width <= 240 <= |buf|
    ensures Parse(FlushTrace(buf)[4 * p]) == Some(Command(0xB0 + p as bv8))
    ensures Parse(FlushTrace(buf)[4 * p + 1]) == Some(Command(0x01))
    ensures Parse(FlushTrace(buf)[4 * p + 2]) == Some(Command(0x10))
    ensures Parse(FlushTrace(buf)[4 * p + 3]) == Some(Data(buf[p * 16..p * 16 + Width]))
  {
    FlushPagesParse(buf, AsWrittenOffsets(Pages), p);
    assert AsWrittenOffsets(Pages)[p] == p * 16;
  }

  /** Which pixels the as-written flush sends: byte c of page p's data frame is
      buffer byte p * 16 + c, so its bit k is the pixel that plotting stored
      there, in column (p * 16 + c) % 128 of page (p * 16 + c) / 128, and not
      pixel (c, 8 * p + k) unless p == 0. */
  lemma FlushPageContents(buf: seq<bv8>, p: nat, c: nat, k: nat)
    requires IsFrame(buf) && p < Pages && c < Width && k < 8
    ensures Parse(FlushTrace(buf)[4 * p + 3]).Some?
    ensures Parse(FlushTrace(buf)[4 * p + 3]).value.Data?
    ensures var d := Parse(FlushTrace(buf)[4 * p + 3]).value.payload;
            |d| == Width && d[c] == buf[p * 16 + c] &&
            ((d[c] & Bit(k) != 0) == Pixel(buf, (p * 16 + c) % Width, ((p * 16 + c) / Width) * 8 + k))
    ensures p > 0 ==> ((p * 16 + c) % Width, ((p * 16 + c) / Width) * 8 + k) != (c, 8 * p + k)
  {
    FlushTraceShape(buf, p);
    var n := p * 16 + c;
    var xy := PixelAt(n, k);
    assert xy == ((p * 16 + c) % Width, ((p * 16 + c) / Width) * 8 + k);
  }

  /** Two buffers that agree on every slice a flush sends give the same frames. */
  lemma {:induction false} FlushPagesAgree(a: seq<bv8>, b: seq<bv8>, offsets: seq<nat>)
    requires SlicesFit(a, offsets) && SlicesFit(b, offsets)
    requires forall p | 0 <= p < |offsets| ::
               a[offsets[p]..offsets[p] + Width] == b[offsets[p]..offsets[p] + Width]
    ensures FlushPages(a, offsets) == FlushPages(b, offsets)
  {
    if offsets != [] {
      var n := |offsets| - 1;
      FlushPagesAgree(a, b, offsets[..n]);
      assert a[offsets[n]..offsets[n] + Width] == b[offsets[n]..offsets[n] + Width];
    }
  }

  /** Sequences with a common prefix agree on every slice inside it. */
  lemma SliceOfPrefix(a: seq<bv8>, b: seq<bv8>, n: nat, lo: nat, len: nat)
    requires lo + len <= n <= |a| && n <= |b| && a[..n] == b[..n]
    ensures a[lo..lo + len] == b[lo..lo + len]
  {
    assert a[lo..lo + len] == a[..n][lo..lo + len];
    assert b[lo..lo + len] == b[..n][lo..lo + len];
  }

  /** The as-written flush never sends buffer bytes 240 .. 1023: two buffers
      that agree on their first 240 bytes produce the same frames. */
  lemma FlushIgnoresTail(a: seq<bv8>, b: seq<bv8>)
    requires IsFrame(a) && IsFrame(b) && a[..240] == b[..240]
    ensures FlushTrace(a) == FlushTrace(b)
  {
    var offsets := AsWrittenOffsets(Pages);
    forall p | 0 <= p < Pages
      ensures a[offsets[p]..offsets[p] + Width] == b[offsets[p]..offsets[p] + Width]
    {
      SliceOfPrefix(a, b, 240, offsets[p], Width);
    }
    FlushPagesAgree(a, b, offsets);
  }

  /** Counterexample: lighting pixel (0, 63) in a framebuffer where it is
      dark changes the framebuffer but not a single frame of the as-written
      flush, so the frames cannot be turned back into the framebuffer. */
  lemma FlushLosesPixel(buf: seq<bv8>)
    requires IsFrame(buf) && !Pixel(buf, 0, 63)
    ensures Plot(buf, 0, 63, true) != buf
    ensures FlushTrace(Plot(buf, 0, 63, true)) == FlushTrace(buf)
  {
    var lit := Plot(buf, 0, 63, true);
    PlotBytes(buf, 0, 63, true);
    assert lit[..240] == buf[..240];
    FlushIgnoresTail(lit, buf);
  }

  lemma FlushCorrectedPageFrame(buf: seq<bv8>, p: nat)
    requires IsFrame(buf) && p < Pages
    ensures Parse(FlushTraceCorrected(buf)[4 * p + 3]) == Some(Data(buf[p * Width..p * Width + Width]))
  {
    FlushPagesParse(buf, PageStarts(Pages), p);
    assert PageStarts(Pages)[p] == p * Width;
  }

  /** Which pixels the corrected flush sends: bit k of byte c of page p's
      data frame is pixel (c, 8 * p + k). */
  lemma FlushCorrectedPageContents(buf: seq<bv8>, p: nat, c: nat, k: nat)
    requires IsFrame(buf) && p < Pages && c < Width && k < 8
    ensures Parse(FlushTraceCorrected(buf)[4 * p + 3]) == Some(Data(buf[p * Width..p * Width + Width]))
    ensures (buf[p * Width..p * Width + Width][c] & Bit(k) != 0) == Pixel(buf, c, 8 * p + k)
  {
    FlushCorrectedPageFrame(buf, p);
    var off := p * Width;
    assert off + Width <= |buf|;
    assert buf[off..off + Width][c] == buf[off + c];
    assert (8 * p + k) / 8 == p && (8 * p + k) % 8 == k;
    assert ByteIndex(c, 8 * p + k) == off + c;
  }

  /** The display data of a frame sequence, concatenated in order. */
  function DataPayloads(frames: seq<seq<bv8>>): seq<bv8> {
    if frames == [] then []
    else
      (match Parse(frames[0]) case Some(Data(d)) => d case _ => []) + DataPayloads(frames[1..])
  }

  lemma {:induction false} DataPayloadsAppend(a: seq<seq<bv8>>, b: seq<seq<bv8>>)
    ensures DataPayloads(a + b) == DataPayloads(a) + DataPayloads(b)
  {
    if a != [] {
      assert (a + b)[1..] == a[1..] + b;
      DataPayloadsAppend(a[1..], b);
    } else {
      assert a + b == b;
    }
  }

  /** The data of one page's frames is exactly the slice it sends. */
  lemma PageFramesPayload(buf: seq<bv8>, page: nat, offset: nat)
    requires page < Pages && offset + Width <= |buf|
    ensures DataPayloads(PageFrames(buf, page, offset)) == buf[offset..offset + Width]
  {
    var f := PageFrames(buf, page, offset);
    var d := buf[offset..offset + Width];
    PageFramesParse(buf, page, offset);
    assert f[3..][1..] == [];
    assert DataPayloads(f[3..]) == d;
    assert f[2..][1..] == f[3..];
    assert DataPayloads(f[2..]) == d;
    assert f[1..][1..] == f[2..];
    assert DataPayloads(f[1..]) == d;
  }

  /** The data of a flush is the data of its earlier pages followed by
      the slice of its last page. */
  lemma FlushPagesPayloadStep(buf: seq<bv8>, offsets: seq<nat>)
    requires SlicesFit(buf, offsets) && offsets != []
    ensures DataPayloads(FlushPages(buf, offsets)) ==
            DataPayloads(FlushPages(buf, offsets[..|offsets| - 1])) +
            buf[offsets[|offsets| - 1]..offsets[|offsets| - 1] + Width]
  {
    var n := |offsets| - 1;
    DataPayloadsAppend(FlushPages(buf, offsets[..n]), PageFrames(buf, n, offsets[n]));
    PageFramesPayload(buf, n, offsets[n]);
  }

  /** The corrected flush of n pages carries the data of the first n - 1
      pages followed by page n - 1's bytes of the framebuffer. */
  lemma CorrectedPayloadStep(buf: seq<bv8>, n: nat)
    requires 0 < n <= Pages && IsFrame(buf)
    ensures DataPayloads(FlushPages(buf, PageStarts(n))) ==
            DataPayloads(FlushPages(buf, PageStarts(n - 1))) + buf[(n - 1) * Width..n * Width]
  {
    var starts := PageStarts(n);
    assert starts[..n - 1] == PageStarts(n - 1);
    assert starts[n - 1] == (n - 1) * Width;
    FlushPagesPayloadStep(buf, starts);
  }

  lemma {:induction false} FlushCorrectedPrefix(buf: seq<bv8>, n: nat)
    requires n <= Pages && IsFrame(buf)
    ensures DataPayloads(FlushPages(buf, PageStarts(n))) == buf[..n * Width]
  {
    if n > 0 {
      CorrectedPayloadStep(buf, n);
      FlushCorrectedPrefix(buf, n - 1);
      SliceSplit(buf, (n - 1) * Width, Width);
    }
  }

  lemma SliceSplit(buf: seq<bv8>, lo: nat, len: nat)
    requires lo + len <= |buf|
    ensures buf[..lo + len] == buf[..lo] + buf[lo..lo + len]
  {
  }

  /** Round trip of the corrected flush: its data frames, concatenated,
      are the framebuffer byte for byte. */
  lemma FlushCorrectedRoundTrip(buf: seq<bv8>)
    requires IsFrame(buf)
    ensures DataPayloads(FlushTraceCorrected(buf)) == buf
  {
    FlushCorrectedPrefix(buf, Pages);
    assert buf[..Pages * Width] == buf;
  }
}
