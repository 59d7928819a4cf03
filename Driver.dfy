/** The LED-matrix driver: a framebuffer of one byte per pixel for a chain of `count`
    cascaded 8x8 modules, the configuration commands, and the flush that serialises the
    framebuffer into the chips' row protocol. */
module Driver {
  import opened Packing
  import opened Surface
  import opened Frame
  import opened Protocol
  import opened Transport

  class LedMatrix {
    /** Number of cascaded modules. */
    const count: nat
    /** Length of the framebuffer. */
    const bufLen: nat
    const framebuffer: array<bv8>
    /** The exclusively owned transport. */
    const bus: Bus

    ghost predicate Valid()
      reads this, bus
    {
      count >= 1 && bufLen == 64 * count && framebuffer.Length == bufLen && bus.Valid()
    }

    /** Every cell is 0 or 1. */
    ghost predicate CellsBinary()
      reads framebuffer
    {
      AllBinary(framebuffer[..])
    }

    /** A driver over `bus` with every pixel off; nothing is written to the bus. */
    constructor (count: nat, bufLen: nat, bus: Bus)
      requires count >= 1 && bufLen == 64 * count && bus.Valid()
      ensures Valid() && fresh(framebuffer)
      ensures this.count == count && this.bufLen == bufLen && this.bus == bus
      ensures framebuffer[..] == Blank(bufLen) && CellsBinary()
      ensures unchanged(bus)
    {
      this.count := count;
      this.bufLen := bufLen;
      this.bus := bus;
      framebuffer := new bv8[bufLen](_ => 0);
    }

    /** Width and height of the drawing surface: `64 * count` pixels, one per framebuffer cell
        under the class invariant. */
    function Size(): (size: (nat, nat))
      ensures size.0 * size.1 == 64 * count
      ensures forall x, y :: InBounds(count, x, y) <==> 0 <= x < size.0 && 0 <= y < size.1
    {
      SurfaceSize(count)
    }

    /** Turns every pixel off. Touches only the framebuffer and cannot fail. */
    method Clear()
      requires Valid()
      modifies framebuffer
      ensures Valid() && framebuffer[..] == Blank(bufLen) && CellsBinary()
    {
      forall i | 0 <= i < framebuffer.Length {
        framebuffer[i] := 0;
      }
    }

    /** Applies the pixels in stream order, skipping those outside the bounding box. */
    method DrawIter(pixels: seq<Pixel>)
      requires Valid()
      modifies framebuffer
      ensures Valid()
      ensures framebuffer[..] == Drawn(old(framebuffer[..]), count, pixels)
      ensures old(CellsBinary()) ==> CellsBinary()
    {
      var size := Size();
      for i := 0 to |pixels|
        invariant framebuffer[..] == Drawn(old(framebuffer[..]), count, pixels[..i])
      {
        var p := pixels[i];
        if 0 <= p.x < size.0 && 0 <= p.y < size.1 {
          IndexInRange(count, p.x, p.y);
          framebuffer[p.x + p.y * 8 * count] := if p.on then 1 else 0;
        }
        assert pixels[..i + 1][..i] == pixels[..i];
      }
      assert pixels[..|pixels|] == pixels;
      if old(CellsBinary()) {
        DrawnBinary(old(framebuffer[..]), count, pixels);
      }
    }

    /** Writes `bytes` as one transfer; a transport error comes back as `Comm`. */
    method TransmitRaw(bytes: seq<bv8>) returns (r: Outcome)
      requires Valid()
      modifies bus
      ensures Valid()
      ensures (bus.State(), r) == Run(bus.faults, old(bus.State()), [bytes])
    {
      var written := bus.Write(bytes);
      r := match written
        case Written => Ok
        case Failed(code) => Err(Comm(code));
    }

    method ConfigPowerMode(mode: Shutdown) returns (r: Outcome)
      requires Valid()
      modifies bus
      ensures Valid()
      ensures (bus.State(), r) == Run(bus.faults, old(bus.State()), [PowerCommand(mode)])
    {
      r := TransmitRaw([ShutdownRegister, PowerByte(mode)]);
    }

    method ConfigDecodeMode(mode: DecodeMode) returns (r: Outcome)
      requires Valid()
      modifies bus
      ensures Valid()
      ensures (bus.State(), r) == Run(bus.faults, old(bus.State()), [DecodeModeCommand(mode)])
    {
      r := TransmitRaw([DecodeModeRegister, DecodeModeByte(mode)]);
    }

    method ConfigScanLimit(mode: ScanLimit) returns (r: Outcome)
      requires Valid()
      modifies bus
      ensures Valid()
      ensures (bus.State(), r) == Run(bus.faults, old(bus.State()), [ScanLimitCommand(mode)])
    {
      r := TransmitRaw([ScanLimitRegister, ScanLimitByte(mode)]);
    }

    method ConfigIntensity(mode: Intensity) returns (r: Outcome)
      requires Valid()
      modifies bus
      ensures Valid()
      ensures (bus.State(), r) == Run(bus.faults, old(bus.State()), [IntensityCommand(mode)])
    {
      r := TransmitRaw([IntensityRegister, IntensityByte(mode)]);
    }

    /** Configures the chips: normal operation, no decoding, all rows, intensity 3/32; the
        first failing step ends the sequence with its error. */
    method InitDisplay() returns (r: Outcome)
      requires Valid()
      modifies bus
      ensures Valid()
      ensures (bus.State(), r) == Run(bus.faults, old(bus.State()), InitSequence())
    {
      ghost var st0, cmds := bus.State(), InitSequence();
      assert cmds[..0] == [];
      r := ConfigPowerMode(NormalOperation);
      RunExtend(bus.faults, st0, cmds, 0);
      if r.Err? {
        RunPrefixFails(bus.faults, st0, cmds, 1);
        return;
      }
      r := ConfigDecodeMode(NoDecode);
      RunExtend(bus.faults, st0, cmds, 1);
      if r.Err? {
        RunPrefixFails(bus.faults, st0, cmds, 2);
        return;
      }
      r := ConfigScanLimit(Display0To7);
      RunExtend(bus.faults, st0, cmds, 2);
      if r.Err? {
        RunPrefixFails(bus.faults, st0, cmds, 3);
        return;
      }
      r := ConfigIntensity(Ratio3_32);
      RunExtend(bus.faults, st0, cmds, 3);
      assert cmds[..4] == cmds;
    }

    /** The packing loop for the 8 cells starting at `base`. */
    method PackCells(base: nat) returns (b: bv8)
      requires base + 8 <= framebuffer.Length
      ensures b == Pack8(framebuffer[base..base + 8])
    {
      ghost var cells := framebuffer[base..base + 8];
      b := 0;
      for i := 0 to 8
        invariant b == PackPrefix(cells, i)
      {
        b := b | (framebuffer[base + i] << (7 - i));
      }
    }

    /** The module bytes of row `addr`, collected walking the modules from the last one down
        to module 0. */
    method CollectRow(addr: nat) returns (data: seq<bv8>)
      requires Valid() && addr < 8
      ensures data == CollectedBytes(framebuffer[..], count, addr)
    {
      ghost var modules := ModuleBytes(framebuffer[..], count, addr);
      data := [];
      var disp := count;
      while disp > 0
        invariant 0 <= disp <= count
        invariant |data| == count - disp
        invariant forall j :: 0 <= j < |data| ==> data[j] == modules[count - 1 - j]
      {
        disp := disp - 1;
        SliceInBounds(count, addr, disp);
        var b := PackCells(disp * 8 + addr * (count * 8));
        assert b == modules[disp] by {
          assert framebuffer[..][ModuleBase(count, addr, disp)..ModuleBase(count, addr, disp) + 8]
              == framebuffer[disp * 8 + addr * (count * 8)..disp * 8 + addr * (count * 8) + 8];
        }
        data := data + [b];
      }
    }

    /** The transmission buffer for row `addr`: the collected module bytes are read back from
        the end into the odd bytes, each after the row register `addr + 1`. */
    method RowBuffer(addr: nat) returns (buffer: seq<bv8>)
      requires Valid() && addr < 8
      ensures buffer == RowCommand(framebuffer[..], count, addr)
    {
      var data := CollectRow(addr);
      var register := addr as bv8 + 1;
      assert register == (addr + 1) as bv8;
      buffer := FillRowBuffer(register, data);
    }

    /** Sends the whole framebuffer, one transfer per row from row 0 to row 7, stopping at
        the first failing transfer. The framebuffer is only read. */
    method Flush() returns (r: Outcome)
      requires Valid()
      modifies bus
      ensures Valid() && unchanged(framebuffer)
      ensures (bus.State(), r) == Run(bus.faults, old(bus.State()), FrameCommands(framebuffer[..], count))
    {
      ghost var st0 := bus.State();
      ghost var cmds := FrameCommands(framebuffer[..], count);
      assert cmds[..0] == [];
      for addr := 0 to 8
        invariant Valid()
        invariant (bus.State(), Ok) == Run(bus.faults, st0, cmds[..addr])
      {
        var buffer := RowBuffer(addr);
        r := TransmitRaw(buffer);
        RunExtend(bus.faults, st0, cmds, addr);
        if r.Err? {
          RunPrefixFails(bus.faults, st0, cmds, addr + 1);
          return;
        }
      }
      assert cmds[..8] == cmds;
      r := Ok;
    }
  }

  /** Fills a zeroed buffer of `2 * |data|` bytes in place: byte `2i` is `register`, byte
      `2i + 1` is `data[|data| - 1 - i]`. */
  method FillRowBuffer(register: bv8, data: seq<bv8>) returns (buffer: seq<bv8>)
    ensures buffer == RowFrame(register, data)
  {
    ghost var frame := RowFrame(register, data);
    RowFrameSlots(register, data);
    var buf := new bv8[2 * |data|](_ => 0);
    for i := 0 to |data|
      invariant forall j :: 0 <= j < i ==> buf[2 * j] == frame[2 * j] && buf[2 * j + 1] == frame[2 * j + 1]
    {
      buf[2 * i] := register;
      buf[2 * i + 1] := data[|data| - 1 - i];
    }
    buffer := buf[..];
    EqualBySlots(buffer, frame, |data|);
  }

  /** A flush whose eight transfers all go through sends the eight row commands, in order. */
  lemma FlushSucceeds(faults: map<nat, nat>, st: BusState, fb: seq<bv8>, count: nat)
    requires |fb| == 64 * count
    requires forall i :: |st.attempted| <= i < |st.attempted| + 8 ==> i !in faults
    ensures var frame := FrameCommands(fb, count);
      Run(faults, st, frame) == (BusState(st.attempted + frame, st.sent + frame), Ok)
  {
    var frame := FrameCommands(fb, count);
    RunStopsAtFirstFault(faults, st, frame);
  }

  /** A flush whose transfer for row `a` is the first to fail: rows before `a` are sent,
      row `a` is attempted, no later row is attempted, and the transport's error is returned. */
  lemma FlushStopsAtFailedRow(faults: map<nat, nat>, st: BusState, fb: seq<bv8>, count: nat, a: nat)
    requires |fb| == 64 * count && a < 8
    requires forall i :: |st.attempted| <= i < |st.attempted| + a ==> i !in faults
    requires |st.attempted| + a in faults
    ensures var frame := FrameCommands(fb, count);
      Run(faults, st, frame) ==
        (BusState(st.attempted + frame[..a + 1], st.sent + frame[..a]),
         Err(Comm(faults[|st.attempted| + a])))
  {
    var frame := FrameCommands(fb, count);
    RunStopsAtFirstFault(faults, st, frame);
  }

  /** `init_display` on a transport whose second write fails: the power-mode command is
      sent, the decode-mode command is attempted and its error returned, and neither the
      scan-limit nor the intensity command is attempted. */
  lemma InitFailsOnSecondWrite(faults: map<nat, nat>, st: BusState)
    requires |st.attempted| !in faults && |st.attempted| + 1 in faults
    ensures Run(faults, st, InitSequence()) ==
      (BusState(st.attempted + [[0x0C, 0x01], [0x09, 0x00]], st.sent + [[0x0C, 0x01]]),
       Err(Comm(faults[|st.attempted| + 1])))
  {
    var cmds := InitSequence();
    RunStopsAtFirstFault(faults, st, cmds);
    assert Accepted(faults, |st.attempted| + 1, cmds[1..]) == 0;
    assert Accepted(faults, |st.attempted|, cmds) == 1;
    assert cmds[..2] == [[0x0C, 0x01], [0x09, 0x00]] && cmds[..1] == [[0x0C, 0x01]];
  }
}
