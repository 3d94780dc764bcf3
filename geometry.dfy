/** Panel geometry of the 128x64 monochrome OLED and the page-organised
    addressing of its framebuffer: each byte holds eight vertically
    stacked pixels of one column within one eight-row page. */
module Geometry {

  const Width: nat := 128
  const Height: nat := 64
  /** Number of eight-row pages. */
  const Pages: nat := Height / 8
  /** Bytes in the packed framebuffer: one bit per pixel. */
  const BufferSize: nat := Width * Height / 8

  predicate InBounds(x: int, y: int) {
    0 <= x < Width && 0 <= y < Height
  }

  /** Index of the byte holding pixel (x, y): column x of page y / 8. */
  function ByteIndex(x: int, y: int): (i: nat)
    requires InBounds(x, y)
    ensures i < BufferSize
    ensures i / Width == y / 8 && i % Width == x
  {
    x + (y / 8) * Width
  }

  /** Bit position of row y inside its page byte (bit 0 is the top row). */
  function BitIndex(y: int): (k: nat)
    requires 0 <= y
    ensures k < 8 && (y - k) % 8 == 0
  {
    y % 8
  }

  /** The pixel stored in bit k of byte i: the inverse of the addressing. */
  function PixelAt(i: nat, k: nat): (p: (int, int))
    requires i < BufferSize && k < 8
    ensures InBounds(p.0, p.1)
    ensures ByteIndex(p.0, p.1) == i && BitIndex(p.1) == k
  {
    (i % Width, (i / Width) * 8 + k)
  }

  /** Distinct in-bounds pixels occupy distinct (byte, bit) pairs. */
  lemma AddressInjective(x1: int, y1: int, x2: int, y2: int)
    requires InBounds(x1, y1) && InBounds(x2, y2)
    requires ByteIndex(x1, y1) == ByteIndex(x2, y2) && BitIndex(y1) == BitIndex(y2)
    ensures x1 == x2 && y1 == y2
  {
    assert y1 == (y1 / 8) * 8 + y1 % 8;
    assert y2 == (y2 / 8) * 8 + y2 % 8;
  }

  /** Every pixel is recovered from its (byte, bit) address. */
  lemma PixelAtAddress(x: int, y: int)
    requires InBounds(x, y)
    ensures PixelAt(ByteIndex(x, y), BitIndex(y)) == (x, y)
  {
    var p := PixelAt(ByteIndex(x, y), BitIndex(y));
    AddressInjective(p.0, p.1, x, y);
  }
}
