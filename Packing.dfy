/** Packing of one module row: eight one-byte pixel cells become one row-data byte,
    most significant bit first (the leftmost column is bit 7). */
module Packing {

  /** A cell is "binary" when it holds 0 (off) or 1 (on), the only values the drawing
      surface ever writes. */
  predicate IsBinary(c: bv8) {
    c == 0 || c == 1
  }

  predicate AllBinary(s: seq<bv8>) {
    forall i :: 0 <= i < |s| ==> IsBinary(s[i])
  }

  /** The accumulator after the first `n` steps of the packing loop:
      `b |= cell[i] << (7 - i)` for i in 0..n, on 8-bit values (bits shifted past bit 7 are lost). */
  function PackPrefix(s: seq<bv8>, n: nat): (b: bv8)
    requires |s| == 8 && n <= 8
  {
    if n == 0 then 0 else PackPrefix(s, n - 1) | (s[n - 1] << (8 - n))
  }

  /** The packed row byte of an 8-cell slice. */
  function Pack8(s: seq<bv8>): (b: bv8)
    requires |s| == 8
  {
    PackPrefix(s, 8)
  }

  /** The bit of `b` that the packing puts column `i` into. */
  function ColumnBit(b: bv8, i: nat): (bit: bv8)
    requires i < 8
  {
    (b >> (7 - i)) & 1
  }

  /** Reference inverse of the packing: the eight column bits of a byte, leftmost first. */
  function Unpack8(b: bv8): (s: seq<bv8>)
    ensures |s| == 8 && AllBinary(s)
  {
    [ColumnBit(b, 0), ColumnBit(b, 1), ColumnBit(b, 2), ColumnBit(b, 3),
     ColumnBit(b, 4), ColumnBit(b, 5), ColumnBit(b, 6), ColumnBit(b, 7)]
  }

  /** The packing loop written out: every cell is shifted to its column bit and ORed in. */
  lemma PackUnfolded(s: seq<bv8>)
    requires |s| == 8
    ensures Pack8(s) == (s[0] << 7) | (s[1] << 6) | (s[2] << 5) | (s[3] << 4)
                      | (s[4] << 3) | (s[5] << 2) | (s[6] << 1) | s[7]
  {
    assert PackPrefix(s, 1) == s[0] << 7;
    assert PackPrefix(s, 2) == PackPrefix(s, 1) | (s[1] << 6);
    assert PackPrefix(s, 3) == PackPrefix(s, 2) | (s[2] << 5);
    assert PackPrefix(s, 4) == PackPrefix(s, 3) | (s[3] << 4);
    assert PackPrefix(s, 5) == PackPrefix(s, 4) | (s[4] << 3);
    assert PackPrefix(s, 6) == PackPrefix(s, 5) | (s[5] << 2);
    assert PackPrefix(s, 7) == PackPrefix(s, 6) | (s[6] << 1);
    assert PackPrefix(s, 8) == PackPrefix(s, 7) | (s[7] << 0);
  }

  /** MSB-first: for binary cells, column bit `i` of the packed byte is cell `i`. */
  lemma PackColumnBits(s: seq<bv8>)
    requires |s| == 8 && AllBinary(s)
    ensures forall i :: 0 <= i < 8 ==> ColumnBit(Pack8(s), i) == s[i]
  {
    PackUnfolded(s);
    assert IsBinary(s[0]) && IsBinary(s[1]) && IsBinary(s[2]) && IsBinary(s[3]);
    assert IsBinary(s[4]) && IsBinary(s[5]) && IsBinary(s[6]) && IsBinary(s[7]);
  }

  /** Unpacking a packed slice of binary cells gives the slice back. */
  lemma UnpackPack(s: seq<bv8>)
    requires |s| == 8 && AllBinary(s)
    ensures Unpack8(Pack8(s)) == s
  {
    PackColumnBits(s);
  }

  /** Packing the column bits of any byte gives that byte back: every row byte is reachable. */
  lemma PackUnpack(b: bv8)
    ensures Pack8(Unpack8(b)) == b
  {
    PackUnfolded(Unpack8(b));
  }

  /** The two edge cases: only the leftmost cell on gives 0x80, only the rightmost gives 0x01. */
  lemma PackEdges()
    ensures Pack8([1, 0, 0, 0, 0, 0, 0, 0]) == 0x80
    ensures Pack8([0, 0, 0, 0, 0, 0, 0, 1]) == 0x01
  {
    PackUnfolded([1, 0, 0, 0, 0, 0, 0, 0]);
    PackUnfolded([0, 0, 0, 0, 0, 0, 0, 1]);
  }
}
