/** The driver as the firmware runs it: one panel object owning the
    1024-byte framebuffer, updated in place by the drawing routines, and the
    trace of bus frames written so far. UpdateDisplayCorrected is the flush
    with its page offset corrected; the firmware itself uses UpdateDisplay. */
module Driver {
  import opened Geometry
  import opened Framebuffer
  import opened Bus
  import opened Controller

  /** Pixels of the one-pixel frame around the panel's edge. */
  predicate OnBorder(x: int, y: int) {
    x == 0 || x == Width - 1 || y == 0 || y == Height - 1
  }

  /** Sending opcode k of the initialisation after its first k frames
      extends the sent prefix by one frame. */
  lemma InitPrefixStep(start: seq<seq<bv8>>, k: nat, before: seq<seq<bv8>>, after: seq<seq<bv8>>)
    requires k < InitLength && before == start + InitPrefix(k)
    requires after == before + [CommandFrame(InitOpcode(k))]
    ensures after == start + InitPrefix(k + 1)
  {
    assert InitPrefix(k + 1) == InitPrefix(k) + [CommandFrame(InitOpcode(k))];
  }

  /** The four transactions of one page, sent after the frames `done`,
      extend them by that page's frames. */
  lemma SendPage(start: seq<seq<bv8>>, done: seq<seq<bv8>>, buf: seq<bv8>, page: nat, offset: nat,
                 s0: seq<seq<bv8>>, s1: seq<seq<bv8>>, s2: seq<seq<bv8>>, s3: seq<seq<bv8>>, s4: seq<seq<bv8>>)
    requires page < Pages && offset + Width <= |buf|
    requires s0 == start + done
    requires s1 == s0 + [CommandFrame((0xB0 + page) as bv8)]
    requires s2 == s1 + [CommandFrame(0x01)] && s3 == s2 + [CommandFrame(0x10)]
    requires s4 == s3 + [DataFrame(buf[offset..offset + Width])]
    ensures s4 == start + (done + PageFrames(buf, page, offset))
  {
    var frames := PageFrames(buf, page, offset);
    assert s4 == s0 + frames;
    assert start + done + frames == start + (done + frames);
  }

  class Oled {
    /** The packed framebuffer, page by page, column by column. */
    const buffer: array<bv8>
    /** Every bus transaction written so far, oldest first. */
    var trace: seq<seq<bv8>>

    ghost predicate Valid() {
      buffer.Length == BufferSize
    }

    /** The framebuffer starts dark (static storage) and nothing has been sent. */
    constructor ()
      ensures Valid() && fresh(buffer)
      ensures IsBlank(buffer[..]) && trace == []
    {
      buffer := new bv8[BufferSize](_ => 0);
      trace := [];
    }

    /** One command transaction. */
    method WriteCommand(opcode: bv8)
      modifies this`trace
      ensures trace == old(trace) + [CommandFrame(opcode)]
    {
      trace := trace + [CommandFrame(opcode)];
    }

    /** One data transaction carrying `data`. */
    method WriteData(data: seq<bv8>)
      modifies this`trace
      ensures trace == old(trace) + [DataFrame(data)]
    {
      trace := trace + [DataFrame(data)];
    }

    /** Sends the controller's initialisation sequence; the framebuffer is untouched. */
    method Init()
      modifies this`trace
      ensures trace == old(trace) + InitTrace()
    {
      ghost var s0 := trace;
      assert s0 == s0 + InitPrefix(0);
      WriteCommand(0xAE);
      ghost var s1 := trace;
      InitPrefixStep(s0, 0, s0, s1);
      WriteCommand(0xD5);
      ghost var s2 := trace;
      InitPrefixStep(s0, 1, s1, s2);
      WriteCommand(0x80);
      ghost var s3 := trace;
      InitPrefixStep(s0, 2, s2, s3);
      WriteCommand(0xA8);
      ghost var s4 := trace;
      InitPrefixStep(s0, 3, s3, s4);
      WriteCommand(0x3F);
      ghost var s5 := trace;
      InitPrefixStep(s0, 4, s4, s5);
      WriteCommand(0xD3);
      ghost var s6 := trace;
      InitPrefixStep(s0, 5, s5, s6);
      WriteCommand(0x00);
      ghost var s7 := trace;
      InitPrefixStep(s0, 6, s6, s7);
      WriteCommand(0x40);
      ghost var s8 := trace;
      InitPrefixStep(s0, 7, s7, s8);
      WriteCommand(0x8D);
      ghost var s9 := trace;
      InitPrefixStep(s0, 8, s8, s9);
      WriteCommand(0x14);
      ghost var s10 := trace;
      InitPrefixStep(s0, 9, s9, s10);
      WriteCommand(0x20);
      ghost var s11 := trace;
      InitPrefixStep(s0, 10, s10, s11);
      WriteCommand(0x00);
      ghost var s12 := trace;
      InitPrefixStep(s0, 11, s11, s12);
      WriteCommand(0xA1);
      ghost var s13 := trace;
      InitPrefixStep(s0, 12, s12, s13);
      WriteCommand(0xC8);
      ghost var s14 := trace;
      InitPrefixStep(s0, 13, s13, s14);
      WriteCommand(0xDA);
      ghost var s15 := trace;
      InitPrefixStep(s0, 14, s14, s15);
      WriteCommand(0x12);
      ghost var s16 := trace;
      InitPrefixStep(s0, 15, s15, s16);
      WriteCommand(0x81);
      ghost var s17 := trace;
      InitPrefixStep(s0, 16, s16, s17);
      WriteCommand(0xCF);
      ghost var s18 := trace;
      InitPrefixStep(s0, 17, s17, s18);
      WriteCommand(0xD9);
      ghost var s19 := trace;
      InitPrefixStep(s0, 18, s18, s19);
      WriteCommand(0xF1);
      ghost var s20 := trace;
      InitPrefixStep(s0, 19, s19, s20);
      WriteCommand(0xDB);
      ghost var s21 := trace;
      InitPrefixStep(s0, 20, s20, s21);
      WriteCommand(0x40);
      ghost var s22 := trace;
      InitPrefixStep(s0, 21, s21, s22);
      WriteCommand(0xA4);
      ghost var s23 := trace;
      InitPrefixStep(s0, 22, s22, s23);
      WriteCommand(0xA6);
      ghost var s24 := trace;
      InitPrefixStep(s0, 23, s23, s24);
      WriteCommand(0xAF);
      ghost var s25 := trace;
      InitPrefixStep(s0, 24, s24, s25);
    }

    /** Darkens every pixel. */
    method ClearBuffer()
      requires Valid()
      modifies buffer
      ensures IsBlank(buffer[..])
      ensures forall x, y | InBounds(x, y) :: !Pixel(buffer[..], x, y)
    {
      forall i | 0 <= i < buffer.Length {
        buffer[i] := 0;
      }
      forall x, y | InBounds(x, y) ensures !Pixel(buffer[..], x, y) {
        BlankAllDark(buffer[..], x, y);
      }
    }

    /** Lights pixel (x, y) when value is nonzero, darkens it otherwise;
        does nothing outside the panel. */
    method SetPixel(x: int, y: int, value: bv8)
      requires Valid()
      modifies buffer
      ensures buffer[..] == Plot(old(buffer[..]), x, y, value != 0)
    {
      if 0 <= x < Width && 0 <= y < Height {
        var i, mask := ByteIndex(x, y), Bit(BitIndex(y));
        ghost var before := buffer[..];
        if value != 0 {
          buffer[i] := buffer[i] | mask;
        } else {
          buffer[i] := buffer[i] & !mask;
        }
        assert buffer[..] == before[i := buffer[i]];
      }
    }

    /** Plots (i, y) for x <= i < x + width. */
    method DrawHLine(x: int, y: int, width: int, value: bv8)
      requires Valid()
      modifies buffer
      ensures forall a, b | InBounds(a, b) ::
                Pixel(buffer[..], a, b) == if b == y && x <= a < x + width then value != 0 else Pixel(old(buffer[..]), a, b)
      ensures width <= 0 ==> buffer[..] == old(buffer[..])
    {
      var i := x;
      while i < x + width
        invariant i == x || x < i <= x + width
        invariant forall a, b | InBounds(a, b) ::
                    Pixel(buffer[..], a, b) == if b == y && x <= a < i then value != 0 else Pixel(old(buffer[..]), a, b)
      {
        ghost var before := buffer[..];
        SetPixel(i, y, value);
        forall a, b | InBounds(a, b)
          ensures Pixel(buffer[..], a, b) == if b == y && x <= a < i + 1 then value != 0 else Pixel(old(buffer[..]), a, b)
        {
          PlotPixel(before, i, y, value != 0, a, b);
        }
        i := i + 1;
      }
      if width <= 0 {
        PixelsDetermineBuffer(buffer[..], old(buffer[..]));
      }
    }

    /** Plots (x, i) for y <= i < y + height. */
    method DrawVLine(x: int, y: int, height: int, value: bv8)
      requires Valid()
      modifies buffer
      ensures forall a, b | InBounds(a, b) ::
                Pixel(buffer[..], a, b) == if a == x && y <= b < y + height then value != 0 else Pixel(old(buffer[..]), a, b)
      ensures height <= 0 ==> buffer[..] == old(buffer[..])
    {
      var i := y;
      while i < y + height
        invariant i == y || y < i <= y + height
        invariant forall a, b | InBounds(a, b) ::
                    Pixel(buffer[..], a, b) == if a == x && y <= b < i then value != 0 else Pixel(old(buffer[..]), a, b)
      {
        ghost var before := buffer[..];
        SetPixel(x, i, value);
        forall a, b | InBounds(a, b)
          ensures Pixel(buffer[..], a, b) == if a == x && y <= b < i + 1 then value != 0 else Pixel(old(buffer[..]), a, b)
        {
          PlotPixel(before, x, i, value != 0, a, b);
        }
        i := i + 1;
      }
      if height <= 0 {
        PixelsDetermineBuffer(buffer[..], old(buffer[..]));
      }
    }

    /** Sends the framebuffer page by page as the firmware does: page p's
        data is taken from offset p * Width / 8 (see Controller.FlushTrace
        for what that sends). The framebuffer is only read. */
    method UpdateDisplay()
      requires Valid()
      modifies this`trace
      ensures trace == old(trace) + FlushTrace(buffer[..])
      ensures buffer[..] == old(buffer[..])
    {
      ghost var buf := buffer[..];
      for page := 0 to Pages
        invariant trace == old(trace) + FlushPages(buf, AsWrittenOffsets(page))
      {
        ghost var s0 := trace;
        WriteCommand((0xB0 + page) as bv8);
        ghost var s1 := trace;
        WriteCommand(0x01);
        ghost var s2 := trace;
        WriteCommand(0x10);
        ghost var s3 := trace;
        var offset := page * Width / 8;
        WriteData(buffer[offset..offset + Width]);
        SendPage(old(trace), FlushPages(buf, AsWrittenOffsets(page)), buf, page, offset, s0, s1, s2, s3, trace);
        FlushAsWrittenStep(buf, page);
      }
    }

    /** The flush with the page offset corrected to p * Width, where SetPixel
        stores page p; its data frames carry the whole framebuffer
        (Controller.FlushCorrectedRoundTrip). The framebuffer is only read. */
    method UpdateDisplayCorrected()
      requires Valid()
      modifies this`trace
      ensures trace == old(trace) + FlushTraceCorrected(buffer[..])
      ensures buffer[..] == old(buffer[..])
    {
      ghost var buf := buffer[..];
      for page := 0 to Pages
        invariant trace == old(trace) + FlushPages(buf, PageStarts(page))
      {
        ghost var s0 := trace;
        WriteCommand((0xB0 + page) as bv8);
        ghost var s1 := trace;
        WriteCommand(0x01);
        ghost var s2 := trace;
        WriteCommand(0x10);
        ghost var s3 := trace;
        var offset := page * Width;
        WriteData(buffer[offset..offset + Width]);
        SendPage(old(trace), FlushPages(buf, PageStarts(page)), buf, page, offset, s0, s1, s2, s3, trace);
        FlushCorrectedStep(buf, page);
      }
    }

    /** The firmware's start-up: initialise the controller, draw a border
        round the cleared framebuffer and send it. */
    method AppMain()
      requires Valid()
      modifies this`trace, buffer
      ensures forall x, y | InBounds(x, y) :: Pixel(buffer[..], x, y) == OnBorder(x, y)
      ensures trace == old(trace) + InitTrace() + FlushTrace(buffer[..])
    {
      Init();
      ClearBuffer();
      DrawHLine(0, 0, Width, 1);
      DrawHLine(0, Height - 1, Width, 1);
      DrawVLine(0, 0, Height, 1);
      DrawVLine(Width - 1, 0, Height, 1);
      UpdateDisplay();
    }
  }
}
