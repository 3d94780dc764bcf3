# SH1106 OLED driver for ESP32: framebuffer and bus model

The firmware drives a 128x64 monochrome OLED panel (SH1106/SSD1306 class
controller) over I2C. It keeps a 1024-byte framebuffer organised in eight
pages of 128 column bytes, where bit `k` of byte `x + page * 128` is pixel
`(x, 8 * page + k)`. It draws into that buffer with `oled_set_pixel` and
the line helpers, sends a fixed 25-command initialisation, and copies the
buffer to the panel page by page. At start-up it draws a one-pixel border.

The project has five modules:

- `Geometry` holds the panel constants and the pixel-to-(byte, bit)
  addressing, with its inverse.
- `Framebuffer` holds the pure meaning of a framebuffer. `Pixel` reads a
  pixel. `Plot` is the effect of `oled_set_pixel` on the bytes.
- `Bus` holds the byte layout of the two I2C transactions the driver
  issues. A command transaction is `0x78 0x00 cmd`. A data transaction is
  `0x78 0x40` followed by the bytes. `Parse` reads a transaction back.
- `Controller` holds the transaction sequences of the initialisation
  (`InitTrace`) and of the flush. The flush exists in two versions.
  `FlushTrace` is the code as written: page `p` is taken from
  `p * 128 / 8`. `FlushTraceCorrected` takes page `p` from `p * 128`.
- `Driver` holds the class `Oled`. Its `buffer` array is updated in place.
  Its `trace` records every transaction sent, in order. Each routine of the
  firmware is a method proved against the functions above, as written.

The flush as written sends the wrong bytes; see "## Findings".
`Driver.Oled.UpdateDisplay` and `Driver.Oled.AppMain` follow the code as
written and are proved to send `FlushTrace`. The class also has
`Driver.Oled.UpdateDisplayCorrected`. It is not a routine of the firmware:
it is the same loop with the page offset corrected, proved to send
`FlushTraceCorrected`, whose data is the whole framebuffer.

## Model

| member | source | states |
|---|---|---|
| Geometry.ByteIndex | main/main.c:117-122 | the byte written for pixel (x, y) is column x of page y / 8, inside the 1024-byte buffer |
| Geometry.BitIndex | main/main.c:120-122 | the bit changed for row y is y % 8, a bit position 0..7 |
| Geometry.PixelAt | main/main.c:34 | every bit of every buffer byte is the storage bit of some in-bounds pixel, so the addressing is onto (uniqueness is AddressInjective) |
| Geometry.AddressInjective | main/main.c:117-122 | distinct in-bounds pixels never share a (byte, bit) pair |
| Geometry.PixelAtAddress | main/main.c:117-122 | the pixel is recovered from the (byte, bit) it is stored in |
| Framebuffer.Plot | main/main.c:114-123 | the buffer after `oled_set_pixel`; it is again a 1024-byte frame, and its effect on bits, bytes and pixels is stated by PlotBit, PlotBytes and PlotPixel below |
| Framebuffer.PlotBit | main/main.c:119-122 | after a plot, the pixel's own bit is set (value nonzero) or cleared (value zero), and the other seven bits of its byte are kept |
| Framebuffer.PlotBytes | main/main.c:117-122 | an in-bounds plot changes only the pixel's byte, and within it only the pixel's bit, which then reads as the value |
| Framebuffer.PlotPixel | main/main.c:114-123 | after plotting (x, y), pixel (x, y) reads the value and every other pixel reads as before; an out-of-bounds plot changes no pixel |
| Framebuffer.PlotOutside | main/main.c:117 | coordinates outside 0..127 x 0..63 leave the buffer byte-for-byte unchanged |
| Framebuffer.PlotIdempotent | main/main.c:114-123 | plotting the same pixel with the same value twice equals plotting it once |
| Framebuffer.PixelsDetermineBuffer | main/main.c:34 | two buffers showing the same 128x64 pixels are the same 1024 bytes |
| Framebuffer.BlankAllDark | main/main.c:108-111 | in a zeroed buffer every pixel is dark |
| Bus.AddressByteValue | main/main.c:56 | the first byte of each transaction is 0x78: address 0x3C shifted left by one, write flag 0 in bit 0 |
| Bus.ParseEncode | main/main.c:56-58 | reading a transaction back gives a frame exactly when the bytes are that frame's encoding: `CommandFrame` (0x78 0x00 cmd, as main/main.c:56-58 writes) or `DataFrame` (0x78 0x40 then the bytes, as main/main.c:69-71 writes) |
| Controller.InitOpcode | main/main.c:80-104 | the k-th initialisation byte; 0xAE (display off) is sent first and nowhere else, 0xAF (display on) last and nowhere else |
| Controller.InitTrace | main/main.c:78-105 | the transactions of `oled_init`: 25 of them, one per opcode (their contents: InitTraceShape) |
| Controller.InitTraceShape | main/main.c:78-105 | initialisation is 25 command transactions, opcode k in order, from 0xAE (display off) to 0xAF (display on), and no data |
| Controller.PageCommand | main/main.c:148 | the page address command for page p is 0xB0 + p, within 0xB0..0xB7 |
| Controller.PageFrames | main/main.c:148-154 | the four transactions of one page of `oled_update_display` (their contents, read back: PageFramesParse) |
| Controller.PageFramesParse | main/main.c:148-154 | one page reads back as commands 0xB0+page, 0x01, 0x10 and then the data of the Width-byte slice from the page's offset |
| Controller.AsWrittenOffsets | main/main.c:152 | the offsets `page * 128 / 8` of the code as written; every 128-byte slice from them ends by byte 240 |
| Controller.PageStarts | main/main.c:119 | the offsets `page * 128` at which `oled_set_pixel` stores each page; every slice from them lies inside the buffer |
| Controller.FlushPages | main/main.c:146-155 | the page loop of `oled_update_display` for a given offset per page: four transactions per page |
| Controller.FlushTrace | main/main.c:144-156 | the flush as written (offsets `page * 128 / 8`), 32 transactions; what they carry is FlushTraceShape and FlushPageContents |
| Controller.FlushTraceCorrected | main/main.c:144-156 | the flush with offsets `page * 128`, 32 transactions; its data is the whole buffer (FlushCorrectedRoundTrip) |
| Controller.FlushPagesShape | main/main.c:146-155 | a flush is four transactions per page in page order: page address, column low, column high, then the page's data |
| Controller.FlushTraceShape | main/main.c:144-156 | the as-written flush has 32 transactions; page p reads back as commands 0xB0+p, 0x01, 0x10 and data bytes p*16 .. p*16+127, all inside the buffer |
| Controller.FlushPageContents | main/main.c:152-154 | byte c of page p's data is buffer byte p*16+c, so its bit k is the pixel at column (p*16+c) % 128 of page (p*16+c) / 128; for every page p > 0 that is not pixel (c, 8p+k), the pixel the panel shows there |
| Controller.FlushPagesAgree | main/main.c:146-155 | buffers that agree on every slice a flush sends produce the same transactions |
| Controller.FlushIgnoresTail | main/main.c:152 | the as-written flush depends only on buffer bytes 0..239 |
| Controller.FlushLosesPixel | main/main.c:152 | lighting the dark pixel (0, 63) changes the buffer but not one transaction of the as-written flush |
| Controller.FlushCorrectedPageContents | main/main.c:146-155 | with offset page*128, bit k of byte c of page p's data is pixel (c, 8p+k) |
| Controller.FlushCorrectedRoundTrip | main/main.c:146-155 | with offset page*128, the data transactions concatenated are the whole framebuffer, byte for byte |
| Driver.Oled.constructor | main/main.c:34 | the framebuffer starts as 1024 zero bytes and nothing has been sent |
| Driver.Oled.WriteCommand | main/main.c:52-62 | one command transaction 0x78 0x00 cmd is appended to the trace |
| Driver.Oled.WriteData | main/main.c:64-75 | one data transaction 0x78 0x40 followed by the bytes is appended to the trace |
| Driver.Oled.Init | main/main.c:78-105 | exactly the 25 initialisation transactions are appended to the trace |
| Driver.Oled.ClearBuffer | main/main.c:108-111 | every byte is zero and every pixel dark |
| Driver.Oled.SetPixel | main/main.c:114-123 | the new buffer is `Plot` of the old one: the pixel is set or cleared in place, and out-of-bounds calls do nothing |
| Driver.Oled.DrawHLine | main/main.c:126-132 | pixels (i, y) for x <= i < x+width take the value, every other pixel is unchanged, and a non-positive width changes nothing |
| Driver.Oled.DrawVLine | main/main.c:135-141 | pixels (x, i) for y <= i < y+height take the value, every other pixel is unchanged, and a non-positive height changes nothing |
| Driver.Oled.UpdateDisplay | main/main.c:144-156 | for each of the 8 pages, commands 0xB0+p, 0x01, 0x10 and 128 bytes from offset p*128/8 are appended: exactly `FlushTrace` of the buffer; the buffer is not changed |
| Driver.Oled.UpdateDisplayCorrected | main/main.c:144-156 | the same loop with offset p*128 appends exactly `FlushTraceCorrected` of the buffer, whose data is the whole buffer; the buffer is not changed |
| Driver.Oled.AppMain | main/main.c:158-168 | afterwards the lit pixels are exactly the one-pixel border, and the trace has gained the initialisation followed by the as-written flush `FlushTrace` of that buffer |

## Left out

- `i2c_master_init` (main/main.c:37-49) is not modelled. It configures pins, bus speed and the ESP-IDF driver and has no effect on the bytes sent.
- The ESP-IDF command-link calls are not modelled. This covers `i2c_cmd_link_create`, start and stop conditions, ACK checking, `i2c_master_cmd_begin` and its ignored return value. A transaction is modelled as always delivered, as the firmware assumes. The ESP-IDF headers are not part of this model. `I2C_MASTER_WRITE` is taken to be 0, the value ESP-IDF defines.
- The transaction timeout `I2C_MASTER_TIMEOUT_MS / portMAX_DELAY` is not modelled. It concerns bus timing only.
- The idle `while (1) vTaskDelay(...)` loop at the end of `app_main` is not modelled, because it sends nothing.
- The electrical meaning of each initialisation byte (clock divider, charge pump, contrast and so on) is not modelled. Only the byte values and their order are.
- Driver.Oled.DrawHLine: `x + width` is a C `int` and could overflow for huge arguments. The model uses unbounded integers.
- Driver.Oled.DrawVLine: the same holds for `y + height`.
- Driver.Oled.SetPixel: the C expression `~(1 << (y % 8))` is an `int` that `&=` truncates to 8 bits. The model writes the 8-bit complement directly, which is the same value.

## Findings

| source | as written | input that shows it | evidently intended | confidence | as-written member | corrected member |
|---|---|---|---|---|---|---|
| main/main.c:152 | page `p` is sent from `&oled_buffer[page * OLED_WIDTH / 8]`, byte offset `p * 16`, so the eight pages overlap and bytes 240..1023 are never sent | any framebuffer with pixel (0, 63) dark: lighting it changes byte 896 and leaves every transaction of the flush unchanged | `&oled_buffer[page * OLED_WIDTH]`, the offset at which `oled_set_pixel` stores page `p` | high (proved on the model; not executed) | Controller.FlushLosesPixel | Controller.FlushCorrectedRoundTrip |
