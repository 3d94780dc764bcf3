/** The packed framebuffer as a value: 1024 bytes, one bit per pixel, and the
    pure effect of plotting one pixel into it. The imperative driver in
    module Driver is proved against these definitions. */
module Framebuffer {
  import opened Geometry

  /** Mask selecting bit k of a byte, `1 << k`. */
  function Bit(k: nat): bv8
    requires k < 8
  {
    (1 as bv8) << k
  }

  predicate IsFrame(buf: seq<bv8>) {
    |buf| == BufferSize
  }

  /** Every byte is zero. */
  predicate IsBlank(buf: seq<bv8>) {
    forall i | 0 <= i < |buf| :: buf[i] == 0
  }

  /** Whether pixel (x, y) is lit in the framebuffer. */
  predicate Pixel(buf: seq<bv8>, x: int, y: int)
    requires IsFrame(buf) && InBounds(x, y)
  {
    buf[ByteIndex(x, y)] & Bit(BitIndex(y)) != 0
  }

  /** The framebuffer after plotting pixel (x, y) lit (`on`) or dark;
      coordinates outside the panel are ignored. */
  function Plot(buf: seq<bv8>, x: int, y: int, on: bool): (r: seq<bv8>)
    requires IsFrame(buf)
    ensures IsFrame(r)
  {
    if InBounds(x, y) then
      var i := ByteIndex(x, y);
      buf[i := if on then buf[i] | Bit(BitIndex(y)) else buf[i] & !Bit(BitIndex(y))]
    else
      buf
  }

  /** Setting bit k of a byte changes bit k and no other bit; so does clearing it. */
  lemma UpdateBit(b: bv8, k: nat, j: nat)
    requires k < 8 && j < 8
    ensures (b | Bit(k)) & Bit(j) == (if j == k then Bit(j) else b & Bit(j))
    ensures (b & !Bit(k)) & Bit(j) == (if j == k then 0 else b & Bit(j))
    ensures Bit(j) != 0
  {
  }

  /** A byte is determined by its eight bits. */
  lemma ByteFromBits(a: bv8, b: bv8)
    requires forall k: nat | k < 8 :: a & Bit(k) == b & Bit(k)
    ensures a == b
  {
    assert a & Bit(0) == b & Bit(0) && a & Bit(1) == b & Bit(1);
    assert a & Bit(2) == b & Bit(2) && a & Bit(3) == b & Bit(3);
    assert a & Bit(4) == b & Bit(4) && a & Bit(5) == b & Bit(5);
    assert a & Bit(6) == b & Bit(6) && a & Bit(7) == b & Bit(7);
  }

  /** Bit k of the plotted pixel's byte after a plot: the pixel's own bit
      becomes `on`, the other seven bits keep their value. */
  lemma PlotBit(buf: seq<bv8>, x: int, y: int, on: bool, k: nat)
    requires IsFrame(buf) && InBounds(x, y) && k < 8
    ensures Plot(buf, x, y, on)[ByteIndex(x, y)] & Bit(k) ==
            if k == BitIndex(y) then (if on then Bit(k) else 0) else buf[ByteIndex(x, y)] & Bit(k)
  {
    UpdateBit(buf[ByteIndex(x, y)], BitIndex(y), k);
  }

  /** Plotting an in-bounds pixel touches only its own byte, and within that
      byte only its own bit, which becomes `on`. */
  lemma PlotBytes(buf: seq<bv8>, x: int, y: int, on: bool)
    requires IsFrame(buf) && InBounds(x, y)
    ensures forall n | 0 <= n < BufferSize && n != ByteIndex(x, y) :: Plot(buf, x, y, on)[n] == buf[n]
    ensures forall k: nat | k < 8 && k != BitIndex(y) ::
              Plot(buf, x, y, on)[ByteIndex(x, y)] & Bit(k) == buf[ByteIndex(x, y)] & Bit(k)
    ensures Pixel(Plot(buf, x, y, on), x, y) == on
  {
    forall k: nat | k < 8 && k != BitIndex(y)
      ensures Plot(buf, x, y, on)[ByteIndex(x, y)] & Bit(k) == buf[ByteIndex(x, y)] & Bit(k)
    {
      PlotBit(buf, x, y, on, k);
    }
    PlotBit(buf, x, y, on, BitIndex(y));
    UpdateBit(0, BitIndex(y), BitIndex(y));
  }

  /** Reading any pixel after a plot: the plotted pixel reads `on`, every
      other pixel reads as before. Holds for out-of-bounds plots too. */
  lemma PlotPixel(buf: seq<bv8>, x: int, y: int, on: bool, i: int, j: int)
    requires IsFrame(buf) && InBounds(i, j)
    ensures Pixel(Plot(buf, x, y, on), i, j) == if i == x && j == y then on else Pixel(buf, i, j)
  {
    if InBounds(x, y) {
      PlotBytes(buf, x, y, on);
      if ByteIndex(i, j) == ByteIndex(x, y) && !(i == x && j == y) {
        if BitIndex(j) == BitIndex(y) {
          AddressInjective(i, j, x, y);
        }
      }
    }
  }

  /** Plotting outside the panel leaves the framebuffer byte-for-byte unchanged. */
  lemma PlotOutside(buf: seq<bv8>, x: int, y: int, on: bool)
    requires IsFrame(buf) && !InBounds(x, y)
    ensures Plot(buf, x, y, on) == buf
  {
  }

  /** Plotting the same pixel with the same value twice is plotting it once. */
  lemma PlotIdempotent(buf: seq<bv8>, x: int, y: int, on: bool)
    requires IsFrame(buf)
    ensures Plot(Plot(buf, x, y, on), x, y, on) == Plot(buf, x, y, on)
  {
    if InBounds(x, y) {
      var i, k := ByteIndex(x, y), BitIndex(y);
      var once := Plot(buf, x, y, on);
      forall j: nat | j < 8
        ensures Plot(once, x, y, on)[i] & Bit(j) == once[i] & Bit(j)
      {
        UpdateBit(once[i], k, j);
        UpdateBit(buf[i], k, j);
      }
      ByteFromBits(Plot(once, x, y, on)[i], once[i]);
    }
  }

  /** Two framebuffers showing the same pixels are the same bytes: every bit
      of every byte belongs to some pixel. */
  lemma PixelsDetermineBuffer(a: seq<bv8>, b: seq<bv8>)
    requires IsFrame(a) && IsFrame(b)
    requires forall x, y | InBounds(x, y) :: Pixel(a, x, y) == Pixel(b, x, y)
    ensures a == b
  {
    forall n | 0 <= n < BufferSize
      ensures a[n] == b[n]
    {
      forall k: nat | k < 8
        ensures a[n] & Bit(k) == b[n] & Bit(k)
      {
        var p := PixelAt(n, k);
        assert Pixel(a, p.0, p.1) == Pixel(b, p.0, p.1);
        UpdateBit(a[n], k, k);
        assert a[n] & Bit(k) == 0 || a[n] & Bit(k) == Bit(k);
        assert b[n] & Bit(k) == 0 || b[n] & Bit(k) == Bit(k);
      }
      ByteFromBits(a[n], b[n]);
    }
  }

  /** In a zeroed framebuffer every pixel is dark. */
  lemma BlankAllDark(buf: seq<bv8>, x: int, y: int)
    requires IsFrame(buf) && IsBlank(buf) && InBounds(x, y)
    ensures !Pixel(buf, x, y)
  {
  }
}
