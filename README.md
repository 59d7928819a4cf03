# MAX7219 LED-matrix driver, modelled in Dafny

This project models `MAX7219LedMat`, a driver for a chain of `COUNT` cascaded 8x8 LED
modules. Each module sits behind a MAX7219 chip, and all chips share one SPI bus.

The driver keeps a framebuffer with one byte per pixel. The surface is `8 * COUNT` columns
wide and 8 rows high. Pixel `(x, y)` is stored at index `x + y * 8 * COUNT`.

The driver does four things:

- **Drawing.** `draw_iter` writes 0 or 1 into the framebuffer and skips pixels outside the
  bounding box.
- **Clearing.** `clear` sets every cell back to 0.
- **Flushing.** `flush` sends one transfer per row, rows 0 to 7. Each transfer pairs the row
  register `addr + 1` with one packed byte per module. The packing is most significant bit
  first.
- **Configuration.** `config_*` and `init_display` send two-byte register commands.

Modules:

- `Packing` packs eight cells into a row byte. It also defines the inverse, `Unpack8`.
- `Protocol` holds the register addresses, the enum encodings with their decoders, and the
  configuration and start-up commands.
- `Surface` covers the bounding box, the pixel-to-index map and the effect of a pixel stream
  (`Drawn`). It also gives a reference definition of each drawn cell (`LastWrite`).
- `Frame` describes which cells feed which byte of which row command in a flush.
- `Transport` models the bus. A write fails or succeeds according to a fault oracle indexed
  by attempt number. The bus keeps a ghost log of every attempted write and every write that
  went through. `Run` gives the semantics of a sequence of writes joined by `?`.
- `Driver` holds the class `LedMatrix` (fields `count`, `bufLen`, `framebuffer`, `bus`) and
  its methods.

Every I/O method states its effect as `(bus.State(), r) == Run(faults, old(bus.State()), cmds)`.
`cmds` is a pure function: `FrameCommands` for `flush`, `InitSequence` for `init_display`,
and so on. The lemmas on `Run`, `FrameCommands` and `Drawn` then give what that effect means.

The module order in a flush follows the code. `src/lib.rs:91-92` collects the module bytes
walking `disp` from `COUNT - 1` down to 0. `src/lib.rs:108` then reads that list back from
its end. The two reversals cancel, so data slot `i` carries module `i`. `Frame.RowCommandSlots`
proves this.

## Model

| member | source | states |
|---|---|---|
| `Packing.PackColumnBits` | src/lib.rs:96-100 | For 0/1 cells the packing is MSB first: column bit `7 - i` of the packed byte is cell `i`. |
| `Packing.UnpackPack` | src/lib.rs:96-100 | Unpacking the packed byte of eight 0/1 cells gives the cells back, so no pixel is lost or moved. |
| `Packing.PackUnpack` | src/lib.rs:96-100 | Packing the column bits of any byte gives that byte back, so every row pattern can be sent. |
| `Packing.PackEdges` | src/lib.rs:96-100 | Only cell 0 on packs to 0x80; only cell 7 on packs to 0x01. |
| `Protocol.PowerByte` | src/lib.rs:119-123 | Normal operation and shutdown are sent as the two bytes that decode back to them (0x01 and 0x00). |
| `Protocol.DecodeModeByte` | src/lib.rs:25-31 | Each decode mode is sent as its `repr(u8)` byte, and that byte decodes back to the same mode. |
| `Protocol.IntensityByte` | src/lib.rs:33-51 | Each of the 16 intensity steps is sent as a byte in 0x00..0x0F that decodes back to the same step. |
| `Protocol.ScanLimitByte` | src/lib.rs:58-68 | Each scan limit is sent as a byte in 0x00..0x07 that decodes back to the same limit. |
| `Protocol.PowerCommand` | src/lib.rs:119-128 | The power command is the Shutdown register 0x0C followed by a byte that decodes to the requested mode. |
| `Protocol.DecodeModeCommand` | src/lib.rs:130-139 | The command is the DecodeMode register 0x09 followed by a byte that decodes to the requested mode. |
| `Protocol.ScanLimitCommand` | src/lib.rs:141-150 | The command is the ScanLimit register 0x0B followed by a byte that decodes to the requested limit. |
| `Protocol.IntensityCommand` | src/lib.rs:152-157 | The command is the Intensity register 0x0A followed by a byte that decodes to the requested step. |
| `Protocol.InitSequence` | src/lib.rs:163-168 | The start-up commands are exactly `[0x0C,0x01]`, `[0x09,0x00]`, `[0x0B,0x07]`, `[0x0A,0x01]`, in this order. |
| `Surface.IndexInRange` | src/lib.rs:187-190 | An in-bounds pixel's index lies inside a framebuffer of `64 * COUNT` cells. Dividing the index by the row width gives back `y`, and the remainder gives back `x`. |
| `Surface.PixelOfIndex` | src/lib.rs:189 | Every framebuffer index is the index of an in-bounds pixel, so the map is onto. |
| `Surface.LastWrite` | src/lib.rs:185-191 | Reference definition: a cell is written by a stream exactly when some in-bounds pixel of the stream has that index. |
| `Surface.LastWriteIsLast` | src/lib.rs:185-191 | The value `LastWrite` yields is the colour of an in-bounds pixel of the stream aimed at the cell, and no later in-bounds pixel aims at that cell: the last write wins. |
| `Surface.DrawnAt` | src/lib.rs:184-192 | After a pixel stream, each cell holds the value of the last in-bounds pixel aimed at it. A cell that no in-bounds pixel aims at keeps its old value, so out-of-bounds pixels change nothing. |
| `Surface.DrawnBinary` | src/lib.rs:190 | Drawing keeps every cell in {0, 1} when every cell was in {0, 1}. |
| `Surface.DrawnReadBack` | src/lib.rs:188-191 | After a stream ending with an in-bounds pixel, reading that pixel's cell gives 1 if the pixel is on and 0 if it is off. |
| `Frame.SliceInBounds` | src/lib.rs:94-95 | With `BUFLEN == 64 * COUNT`, every slice `[base, base + 8)`, `base = disp*8 + addr*COUNT*8`, lies inside the framebuffer. |
| `Frame.Reverse` | src/lib.rs:91-92 | The reversed module walk puts module `COUNT - 1 - j` at position `j` of the collected list. |
| `Frame.RowFrameSlots` | src/lib.rs:104-109 | In a row buffer, byte `2i` is the row register and byte `2i + 1` is the collected data read from the back. |
| `Frame.RowCommandSlots` | src/lib.rs:90-109 | In the command for row `addr`, every even byte is `addr + 1`. Byte `2i + 1` is the packed slice of module `i`, because the two reversals cancel. |
| `Frame.CellOnWire` | src/lib.rs:94-108 | For 0/1 cells, column `col` of module `disp` in row `addr` is column bit `col` of data slot `disp` in that row's command. |
| `Frame.PixelInSlice` | src/lib.rs:94-95 | Pixel `(x, y)` with `x = 8 * disp + col` and `col < 8` is column `col` of module `disp`'s slice for row `y`. The drawing index and the flush offset name the same cell. |
| `Frame.PixelOnWire` | src/lib.rs:91-108 | End to end, for 0/1 cells: write an in-bounds pixel's x as `8 * disp + col` with `col < 8`. Then the cell of pixel `(x, y)` is column bit `col` of data slot `disp` in the command for row `y`. |
| `Frame.FrameLayout` | src/lib.rs:90-110 | A flush is eight commands, row 0 first. Command `addr` has `2 * COUNT` bytes: `addr + 1` in each even byte and module `i`'s packed slice in byte `2i + 1`. |
| `Frame.BlankFrame` | src/lib.rs:159-161 | Flushing a cleared framebuffer sends, for every row, the row register paired with a 0 byte for every module. |
| `Transport.WriteStep` | src/lib.rs:115-117 | One write is always attempted. It succeeds and is logged as sent exactly when the oracle has no fault for that attempt number. |
| `Transport.Accepted` | src/lib.rs:110 | Reference count of the writes that go through before the first fault: it is the first faulting attempt, or all of them. |
| `Transport.RunStopsAtFirstFault` | src/lib.rs:110 | A `?`-chained run of writes sends every command before the first fault and attempts the faulting one. It attempts nothing after it and returns that fault's `Comm` error. Without a fault, everything is sent and the result is `Ok`. |
| `Transport.RunSplit` | src/lib.rs:163-168 | Running `a` then `b` is running `a + b`, unless `a` fails, and then `b` is never attempted. |
| `Transport.Bus.Write` | src/lib.rs:116 | The bus state and the write result are exactly those of one `WriteStep`. |
| `Driver.LedMatrix.constructor` | src/lib.rs:81-87 | A new driver has a fresh framebuffer of `BUFLEN` zero cells and writes nothing to the bus. |
| `Driver.LedMatrix.Size` | src/lib.rs:196-201 | The bounding box covers `64 * COUNT` pixels, one per framebuffer cell, and it contains `(x, y)` exactly when that pixel is in bounds. |
| `Driver.LedMatrix.Clear` | src/lib.rs:159-161 | Afterwards every cell is 0 (so every cell is in {0, 1}). The bus is not touched, and the method cannot fail. |
| `Driver.LedMatrix.DrawIter` | src/lib.rs:180-193 | The framebuffer becomes `Drawn(old framebuffer, pixels)`, the pixels applied in stream order. The bus is not touched, and the cell invariant {0, 1} is preserved. |
| `Driver.LedMatrix.TransmitRaw` | src/lib.rs:115-117 | Exactly one write of the given bytes; a transport error comes back as `Comm`. |
| `Driver.LedMatrix.ConfigPowerMode` | src/lib.rs:119-128 | Exactly one write, the power command for the mode; its error, if any, is returned. |
| `Driver.LedMatrix.ConfigDecodeMode` | src/lib.rs:130-139 | Exactly one write, the decode-mode command for the mode; its error, if any, is returned. |
| `Driver.LedMatrix.ConfigScanLimit` | src/lib.rs:141-150 | Exactly one write, the scan-limit command for the mode; its error, if any, is returned. |
| `Driver.LedMatrix.ConfigIntensity` | src/lib.rs:152-157 | Exactly one write, the intensity command for the mode; its error, if any, is returned. |
| `Driver.LedMatrix.InitDisplay` | src/lib.rs:163-168 | The effect is the run of the four start-up commands in order, stopping at the first failure and returning its error. |
| `Driver.LedMatrix.PackCells` | src/lib.rs:95-100 | The OR-accumulating packing loop computes `Pack8` of the eight cells from `base`. |
| `Driver.LedMatrix.CollectRow` | src/lib.rs:91-102 | Walking the modules from `COUNT - 1` down to 0 collects the packed bytes in reverse module order. |
| `Driver.LedMatrix.RowBuffer` | src/lib.rs:91-109 | The collection and the buffer filling produce exactly the row command for `addr`. |
| `Driver.FillRowBuffer` | src/lib.rs:104-109 | Filling the `2 * COUNT` buffer in place gives the register/data pairs, with data read from the back of the collected list. |
| `Driver.LedMatrix.Flush` | src/lib.rs:89-113 | The effect is the run of the eight row commands of the current framebuffer, row 0 first, stopping at the first failing write. The framebuffer is unchanged. |
| `Driver.FlushSucceeds` | src/lib.rs:89-113 | When no write fails, a flush sends exactly the eight row commands, in row order, and returns `Ok`. |
| `Driver.FlushStopsAtFailedRow` | src/lib.rs:110 | When row `a`'s write is the first to fail, rows before `a` are sent and row `a` is attempted. No later row is attempted, and the transport's error is returned as `Comm`. |
| `Driver.InitFailsOnSecondWrite` | src/lib.rs:163-168 | If the second write fails, `init_display` sends the power command and attempts the decode-mode command. It returns that failure and never attempts the scan-limit or intensity commands. |

## Left out

- Async suspension and the real SPI device (`SpiDevice::write`, chip-select) are not modelled. The transport is the `Transport.Bus` class, whose writes fail according to a fault oracle (attempt number to error code) fixed at construction. The transport's error type `E` is modelled as a natural-number code.
- `Error::Pin(Infallible)` is left out: no value of it can be built.
- `Command::NoOp` and `Command::DisplayTest` are left out: the driver never sends them.
- The const-generic plumbing (`generic_const_exprs`, `[(); 2 * COUNT]: Sized`, the `heapless::Vec` capacity) is not modelled. It becomes the class precondition `count >= 1 && bufLen == 64 * count`. In the source, `BUFLEN < 64 * COUNT` panics: in `flush` on the slice at `src/lib.rs:95`, after the earlier rows have already been sent, or in `draw_iter` on the index at `src/lib.rs:190`. `BUFLEN > 64 * COUNT` leaves cells that are never drawn or sent. The model covers neither case.
- `Driver.LedMatrix.DrawIter`: the source returns `Result<(), Infallible>`, which can only be `Ok`, so the method returns nothing.
- The embedded-graphics `Pixel`/`BinaryColor` types are reduced to `Surface.Pixel(x, y, on)`. `Point` is reduced to two integers.
- `Driver.LedMatrix.Size` computes with unbounded integers. The source's `COUNT as u32 * 8` (`src/lib.rs:200`) wraps for `COUNT >= 2^29`; that wrap is not modelled.
- `Driver.LedMatrix.DrawIter` computes the cell index with unbounded integers. The source's `u32` index `x + y * 8 * COUNT` (`src/lib.rs:189`) reaches `64 * COUNT - 1` for in-bounds pixels, so it can exceed `u32::MAX` once `COUNT > 2^26`; that wrap is not modelled.
- The state machine unconfigured/configured is not modelled. The source does not enforce it either: `flush` may be called before `init_display`.
- The example program (RP2040 setup, timers, text and line drawing) is deployment code and is not part of this model.
