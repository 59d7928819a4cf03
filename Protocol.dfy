/** The MAX7219 command protocol: register addresses, the byte encodings of the
    configuration enums, and the two-byte configuration commands. */
module Protocol {
  import opened Optional

  // Register addresses (every command is an address byte followed by a data byte).
  const DecodeModeRegister: bv8 := 0x09
  const IntensityRegister: bv8 := 0x0A
  const ScanLimitRegister: bv8 := 0x0B
  const ShutdownRegister: bv8 := 0x0C

  /** Power mode; not `repr(u8)` in the source, its byte is chosen by a match. */
  datatype Shutdown = ShutDownMode | NormalOperation

  datatype DecodeMode = NoDecode | CodeB0 | CodeB30 | CodeB70

  datatype Intensity =
    | Min | Ratio3_32 | Ratio5_32 | Ratio7_32 | Ratio9_32 | Ratio11_32 | Ratio13_32 | Ratio15_32
    | Ratio17_32 | Ratio19_32 | Ratio21_32 | Ratio23_32 | Ratio25_32 | Ratio27_32 | Ratio29_32 | Max

  datatype ScanLimit =
    | Display0Only | Display0And1 | Display0To2 | Display0To3
    | Display0To4 | Display0To5 | Display0To6 | Display0To7

  /** The intensity steps in the order of their byte values 0x00..0x0F. */
  const IntensitySteps: seq<Intensity> :=
    [Min, Ratio3_32, Ratio5_32, Ratio7_32, Ratio9_32, Ratio11_32, Ratio13_32, Ratio15_32,
     Ratio17_32, Ratio19_32, Ratio21_32, Ratio23_32, Ratio25_32, Ratio27_32, Ratio29_32, Max]

  /** The scan limits in the order of their byte values 0x00..0x07. */
  const ScanLimits: seq<ScanLimit> :=
    [Display0Only, Display0And1, Display0To2, Display0To3,
     Display0To4, Display0To5, Display0To6, Display0To7]

  // Decoders: which mode a data byte stands for, if any. They are the partners
  // the encoders below are proved against.

  function PowerModeOf(b: bv8): (m: Option<Shutdown>)
    ensures m.Some? <==> b <= 0x01
  {
    if b == 0x00 then Some(ShutDownMode) else if b == 0x01 then Some(NormalOperation) else None
  }

  function DecodeModeOf(b: bv8): (m: Option<DecodeMode>)
    ensures m.Some? <==> (b == 0x00 || b == 0x01 || b == 0x0F || b == 0xFF)
  {
    if b == 0x00 then Some(NoDecode)
    else if b == 0x01 then Some(CodeB0)
    else if b == 0x0F then Some(CodeB30)
    else if b == 0xFF then Some(CodeB70)
    else None
  }

  function IntensityOf(b: bv8): (m: Option<Intensity>)
    ensures m.Some? <==> b <= 0x0F
  {
    if b <= 0x0F then Some(IntensitySteps[b as int]) else None
  }

  function ScanLimitOf(b: bv8): (m: Option<ScanLimit>)
    ensures m.Some? <==> b <= 0x07
  {
    if b <= 0x07 then Some(ScanLimits[b as int]) else None
  }

  // Encoders: the data byte each mode is sent as.

  function PowerByte(m: Shutdown): (b: bv8)
    ensures PowerModeOf(b) == Some(m)
  {
    match m
    case NormalOperation => 0x01
    case ShutDownMode => 0x00
  }

  function DecodeModeByte(m: DecodeMode): (b: bv8)
    ensures DecodeModeOf(b) == Some(m)
  {
    match m
    case NoDecode => 0x00
    case CodeB0 => 0x01
    case CodeB30 => 0x0F
    case CodeB70 => 0xFF
  }

  function IntensityByte(m: Intensity): (b: bv8)
    ensures IntensityOf(b) == Some(m)
  {
    match m
    case Min => 0x00
    case Ratio3_32 => 0x01
    case Ratio5_32 => 0x02
    case Ratio7_32 => 0x03
    case Ratio9_32 => 0x04
    case Ratio11_32 => 0x05
    case Ratio13_32 => 0x06
    case Ratio15_32 => 0x07
    case Ratio17_32 => 0x08
    case Ratio19_32 => 0x09
    case Ratio21_32 => 0x0A
    case Ratio23_32 => 0x0B
    case Ratio25_32 => 0x0C
    case Ratio27_32 => 0x0D
    case Ratio29_32 => 0x0E
    case Max => 0x0F
  }

  function ScanLimitByte(m: ScanLimit): (b: bv8)
    ensures ScanLimitOf(b) == Some(m)
  {
    match m
    case Display0Only => 0x00
    case Display0And1 => 0x01
    case Display0To2 => 0x02
    case Display0To3 => 0x03
    case Display0To4 => 0x04
    case Display0To5 => 0x05
    case Display0To6 => 0x06
    case Display0To7 => 0x07
  }

  /** A configuration command: the register's address, then the data byte. */
  function Command(register: bv8, data: bv8): (c: seq<bv8>)
    ensures |c| == 2 && c[0] == register && c[1] == data
  {
    [register, data]
  }

  function PowerCommand(m: Shutdown): (c: seq<bv8>)
    ensures |c| == 2 && c[0] == ShutdownRegister && PowerModeOf(c[1]) == Some(m)
  {
    Command(ShutdownRegister, PowerByte(m))
  }

  function DecodeModeCommand(m: DecodeMode): (c: seq<bv8>)
    ensures |c| == 2 && c[0] == DecodeModeRegister && DecodeModeOf(c[1]) == Some(m)
  {
    Command(DecodeModeRegister, DecodeModeByte(m))
  }

  function ScanLimitCommand(m: ScanLimit): (c: seq<bv8>)
    ensures |c| == 2 && c[0] == ScanLimitRegister && ScanLimitOf(c[1]) == Some(m)
  {
    Command(ScanLimitRegister, ScanLimitByte(m))
  }

  function IntensityCommand(m: Intensity): (c: seq<bv8>)
    ensures |c| == 2 && c[0] == IntensityRegister && IntensityOf(c[1]) == Some(m)
  {
    Command(IntensityRegister, IntensityByte(m))
  }

  /** The start-up sequence: normal operation, no decoding, all eight rows scanned,
      intensity 3/32, in this order. */
  function InitSequence(): (cmds: seq<seq<bv8>>)
    ensures cmds == [[0x0C, 0x01], [0x09, 0x00], [0x0B, 0x07], [0x0A, 0x01]]
  {
    [PowerCommand(NormalOperation), DecodeModeCommand(NoDecode),
     ScanLimitCommand(Display0To7), IntensityCommand(Ratio3_32)]
  }
}
