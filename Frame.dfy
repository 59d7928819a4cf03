/** The frame layout of a flush: which framebuffer cells feed which byte of which row command. */
module Frame {
  import opened Packing
  import opened Surface

  /** Offset of the 8 cells that module `disp` shows in row `addr`. */
  function ModuleBase(count: nat, addr: nat, disp: nat): (base: nat) {
    disp * 8 + addr * (count * 8)
  }

  /** With a framebuffer of 64 cells per module, every module slice of every row lies inside it. */
  lemma SliceInBounds(count: nat, addr: nat, disp: nat)
    requires addr < 8 && disp < count
    ensures ModuleBase(count, addr, disp) + 8 <= 64 * count
  {
    MulMono(addr, 7, count * 8);
  }

  /** The 8 cells of module `disp` in row `addr`, leftmost column first. */
  function Slice(fb: seq<bv8>, count: nat, addr: nat, disp: nat): (s: seq<bv8>)
    requires |fb| == 64 * count && addr < 8 && disp < count
    ensures |s| == 8
  {
    SliceInBounds(count, addr, disp);
    fb[ModuleBase(count, addr, disp)..ModuleBase(count, addr, disp) + 8]
  }

  /** The packed byte of every module for row `addr`, in module order. */
  function ModuleBytes(fb: seq<bv8>, count: nat, addr: nat): (bs: seq<bv8>)
    requires |fb| == 64 * count && addr < 8
    ensures |bs| == count
  {
    seq(count, disp requires 0 <= disp < count => Pack8(Slice(fb, count, addr, disp)))
  }

  function Reverse(s: seq<bv8>): (r: seq<bv8>)
    ensures |r| == |s|
    ensures forall i :: 0 <= i < |s| ==> r[i] == s[|s| - 1 - i]
  {
    if s == [] then [] else Reverse(s[1..]) + [s[0]]
  }

  /** The collected row data: the module range is walked in reverse, so module
      `count - 1` comes first. */
  function CollectedBytes(fb: seq<bv8>, count: nat, addr: nat): (data: seq<bv8>)
    requires |fb| == 64 * count && addr < 8
    ensures |data| == count
  {
    Reverse(ModuleBytes(fb, count, addr))
  }

  /** A row transmission buffer: slot `i` is `register` followed by the data read from the
      back, `data[|data| - 1 - i]`. */
  function RowFrame(register: bv8, data: seq<bv8>): (buf: seq<bv8>)
    ensures |buf| == 2 * |data|
  {
    seq(2 * |data|, k requires 0 <= k < 2 * |data| =>
      if k % 2 == 0 then register else data[|data| - 1 - k / 2])
  }

  /** The command sent for row `addr`: the row register is `addr + 1`. */
  function RowCommand(fb: seq<bv8>, count: nat, addr: nat): (cmd: seq<bv8>)
    requires |fb| == 64 * count && addr < 8
    ensures |cmd| == 2 * count
  {
    RowFrame((addr + 1) as bv8, CollectedBytes(fb, count, addr))
  }

  /** The eight row commands of one flush, row 0 first. */
  function FrameCommands(fb: seq<bv8>, count: nat): (cmds: seq<seq<bv8>>)
    requires |fb| == 64 * count
    ensures |cmds| == 8
  {
    seq(8, addr requires 0 <= addr < 8 => RowCommand(fb, count, addr))
  }

  /** A row buffer, slot by slot: the register, then the data read from the back. */
  lemma RowFrameSlots(register: bv8, data: seq<bv8>)
    ensures forall i :: 0 <= i < |data| ==>
      RowFrame(register, data)[2 * i] == register &&
      RowFrame(register, data)[2 * i + 1] == data[|data| - 1 - i]
  {
    forall i | 0 <= i < |data|
      ensures RowFrame(register, data)[2 * i] == register
      ensures RowFrame(register, data)[2 * i + 1] == data[|data| - 1 - i]
    {
      assert (2 * i) % 2 == 0 && (2 * i + 1) / 2 == i && (2 * i + 1) % 2 == 1;
    }
  }

  /** Two sequences of length `2 * n` are equal when they agree slot by slot. */
  lemma EqualBySlots(a: seq<bv8>, b: seq<bv8>, n: nat)
    requires |a| == |b| == 2 * n
    requires forall i :: 0 <= i < n ==> a[2 * i] == b[2 * i] && a[2 * i + 1] == b[2 * i + 1]
    ensures a == b
  {
    forall k | 0 <= k < 2 * n ensures a[k] == b[k] {
      var i := k / 2;
      assert k == 2 * i || k == 2 * i + 1;
    }
  }

  /** The layout of a row command: every even byte is the row register `addr + 1`, and
      (the two reversals cancelling) slot `i` carries the packed slice of module `i`. */
  lemma RowCommandSlots(fb: seq<bv8>, count: nat, addr: nat)
    requires |fb| == 64 * count && addr < 8
    ensures forall i :: 0 <= i < count ==>
      RowCommand(fb, count, addr)[2 * i] == (addr + 1) as bv8 &&
      RowCommand(fb, count, addr)[2 * i + 1] == Pack8(Slice(fb, count, addr, i))
  {
    var cmd, data := RowCommand(fb, count, addr), CollectedBytes(fb, count, addr);
    RowFrameSlots((addr + 1) as bv8, data);
    forall i | 0 <= i < count
      ensures cmd[2 * i] == (addr + 1) as bv8 && cmd[2 * i + 1] == Pack8(Slice(fb, count, addr, i))
    {
      assert data[count - 1 - i] == ModuleBytes(fb, count, addr)[i];
    }
  }

  /** Pixel (x, y), with x = 8 * disp + col and col < 8 (so disp = x / 8 and col = x % 8), is
      column `col` of module `disp`'s slice of row `y`. */
  lemma PixelInSlice(count: nat, x: int, y: int, disp: nat, col: nat)
    requires InBounds(count, x, y) && x == 8 * disp + col && col < 8
    ensures disp < count
    ensures ModuleBase(count, y, disp) + col == Index(count, x, y)
  {
    assert disp < count by {
      if disp >= count {
        MulMono(count, disp, 8);
      }
    }
    assert y * (count * 8) == y * 8 * count;
  }

  /** For binary cells, column `col` of module `disp` in row `addr` travels as column bit
      `col` of data slot `disp` of the command for row `addr`. */
  lemma CellOnWire(fb: seq<bv8>, count: nat, addr: nat, disp: nat, col: nat)
    requires |fb| == 64 * count && AllBinary(fb) && addr < 8 && disp < count && col < 8
    ensures ModuleBase(count, addr, disp) + col < |fb|
    ensures ColumnBit(RowCommand(fb, count, addr)[2 * disp + 1], col)
            == fb[ModuleBase(count, addr, disp) + col]
  {
    var base := ModuleBase(count, addr, disp);
    SliceInBounds(count, addr, disp);
    var s := Slice(fb, count, addr, disp);
    assert s == fb[base..base + 8];
    assert AllBinary(s) by {
      forall j | 0 <= j < 8 ensures IsBinary(s[j]) {
        assert s[j] == fb[base + j];
      }
    }
    PackColumnBits(s);
    assert s[col] == fb[base + col];
    RowCommandSlots(fb, count, addr);
  }

  /** End to end: for binary cells, the cell of in-bounds pixel (x, y), where
      x = 8 * disp + col and col < 8, is column bit `col` of data slot `disp` of the command
      for row `y`. */
  lemma PixelOnWire(fb: seq<bv8>, count: nat, x: int, y: int, disp: nat, col: nat)
    requires |fb| == 64 * count && AllBinary(fb) && InBounds(count, x, y)
    requires x == 8 * disp + col && col < 8
    ensures disp < count && 0 <= Index(count, x, y) < |fb|
    ensures ColumnBit(RowCommand(fb, count, y)[2 * disp + 1], col) == fb[Index(count, x, y)]
  {
    PixelInSlice(count, x, y, disp, col);
    CellOnWire(fb, count, y, disp, col);
  }

  /** The shape of a flush: eight commands, row 0 first, each of `2 * count` bytes, pairing
      the row register `addr + 1` with the packed slice of module `i` in slot `i`. */
  lemma FrameLayout(fb: seq<bv8>, count: nat)
    requires |fb| == 64 * count
    ensures forall addr :: 0 <= addr < 8 ==> FrameCommands(fb, count)[addr] == RowCommand(fb, count, addr)
    ensures forall addr, i :: 0 <= addr < 8 && 0 <= i < count ==>
      FrameCommands(fb, count)[addr][2 * i] == (addr + 1) as bv8 &&
      FrameCommands(fb, count)[addr][2 * i + 1] == Pack8(Slice(fb, count, addr, i))
  {
    forall addr | 0 <= addr < 8 {
      RowCommandSlots(fb, count, addr);
    }
  }

  /** After a clear every row command pairs the row register with a 0 data byte for every
      module: every module shows a dark row. */
  lemma BlankFrame(count: nat)
    ensures forall addr :: 0 <= addr < 8 ==>
      FrameCommands(Blank(64 * count), count)[addr] == RowFrame((addr + 1) as bv8, Blank(count))
  {
    var fb := Blank(64 * count);
    forall addr | 0 <= addr < 8
      ensures FrameCommands(fb, count)[addr] == RowFrame((addr + 1) as bv8, Blank(count))
    {
      forall i | 0 <= i < count
        ensures ModuleBytes(fb, count, addr)[i] == 0
      {
        SliceInBounds(count, addr, i);
        PackZero(Slice(fb, count, addr, i));
      }
      assert ModuleBytes(fb, count, addr) == Blank(count);
      assert CollectedBytes(fb, count, addr) == Blank(count);
    }
  }

  lemma PackZero(s: seq<bv8>)
    requires |s| == 8 && forall j :: 0 <= j < 8 ==> s[j] == 0
    ensures Pack8(s) == 0
  {
    PackUnfolded(s);
  }
}
