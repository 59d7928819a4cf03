/** The logical drawing surface: `8 * count` columns by 8 rows, stored row by row in a
    one-byte-per-pixel framebuffer, and the effect of a stream of pixel writes on it. */
module Surface {
  import opened Packing
  import opened Optional

  /** A pixel of the pixel stream: its position and whether it is on. */
  datatype Pixel = Pixel(x: int, y: int, on: bool)

  /** Width and height of the surface of `count` modules. */
  function SurfaceSize(count: nat): (nat, nat) {
    (count * 8, 8)
  }

  /** Whether the bounding box (origin (0,0), size `SurfaceSize(count)`) contains (x, y). */
  predicate InBounds(count: nat, x: int, y: int) {
    0 <= x < SurfaceSize(count).0 && 0 <= y < SurfaceSize(count).1
  }

  /** Framebuffer index of pixel (x, y). */
  function Index(count: nat, x: int, y: int): (k: int) {
    x + y * 8 * count
  }

  /** The in-bounds pixels are exactly the framebuffer's indices, one to one. */
  lemma IndexInRange(count: nat, x: int, y: int)
    requires InBounds(count, x, y)
    ensures 0 <= Index(count, x, y) < 64 * count
    ensures Index(count, x, y) / (8 * count) == y && Index(count, x, y) % (8 * count) == x
  {
    var w := 8 * count;
    assert y * 8 * count == y * w;
    assert y * w <= 7 * w by {
      assert y <= 7;
    }
    assert x + y * w < w + 7 * w;
    LemmaDivMod(x, y, w);
  }

  /** Division by the row width recovers the row, the remainder the column. */
  lemma LemmaDivMod(x: int, y: int, w: int)
    requires 0 <= x < w && 0 <= y
    ensures (x + y * w) / w == y && (x + y * w) % w == x
  {
    var q, r := (x + y * w) / w, (x + y * w) % w;
    assert q * w + r == x + y * w;
    if q > y {
      MulMono(y + 1, q, w);
    } else if q < y {
      MulMono(q + 1, y, w);
    }
  }

  lemma MulMono(a: int, b: int, w: int)
    requires a <= b && 0 <= w
    ensures a * w <= b * w
  {
    assert b * w - a * w == (b - a) * w;
  }

  /** Every framebuffer index is the index of exactly one in-bounds pixel. */
  lemma PixelOfIndex(count: nat, k: int)
    requires 0 <= k < 64 * count
    ensures InBounds(count, k % (8 * count), k / (8 * count))
    ensures Index(count, k % (8 * count), k / (8 * count)) == k
  {
    var w := 8 * count;
    var q, r := k / w, k % w;
    assert k == q * w + r && 0 <= r < w;
    assert q < 8 by {
      if q >= 8 {
        MulMono(8, q, w);
      }
    }
    assert 0 <= q by {
      if q < 0 {
        MulMono(q, -1, w);
      }
    }
    assert q * 8 * count == q * w;
  }

  /** The cell value a pixel writes: 1 when on, 0 when off. */
  function CellValue(on: bool): (c: bv8)
    ensures IsBinary(c) && (c == 1 <==> on)
  {
    if on then 1 else 0
  }

  /** One pixel write: in-bounds pixels set their cell, the others change nothing. */
  function DrawPixel(fb: seq<bv8>, count: nat, p: Pixel): (r: seq<bv8>)
    requires |fb| == 64 * count
    ensures |r| == |fb|
  {
    if InBounds(count, p.x, p.y) then
      IndexInRange(count, p.x, p.y);
      fb[Index(count, p.x, p.y) := CellValue(p.on)]
    else
      fb
  }

  /** The framebuffer after the pixels of `ps` are applied in stream order. */
  function Drawn(fb: seq<bv8>, count: nat, ps: seq<Pixel>): (r: seq<bv8>)
    requires |fb| == 64 * count
    ensures |r| == |fb|
  {
    if ps == [] then fb else DrawPixel(Drawn(fb, count, ps[..|ps| - 1]), count, ps[|ps| - 1])
  }

  /** Reference definition of a drawn cell: the colour of the last in-bounds pixel of `ps`
      whose index is `k`, if there is one. */
  function LastWrite(count: nat, ps: seq<Pixel>, k: int): (r: Option<bool>)
    ensures r.Some? <==> exists j :: 0 <= j < |ps| && InBounds(count, ps[j].x, ps[j].y)
                                      && Index(count, ps[j].x, ps[j].y) == k
  {
    if ps == [] then None
    else
      var p := ps[|ps| - 1];
      if InBounds(count, p.x, p.y) && Index(count, p.x, p.y) == k then Some(p.on)
      else
        var r := LastWrite(count, ps[..|ps| - 1], k);
        assert forall j :: 0 <= j < |ps| - 1 ==> ps[..|ps| - 1][j] == ps[j];
        r
  }

  /** The value `LastWrite` yields is the colour of an in-bounds pixel aimed at `k` that no
      later in-bounds pixel of the stream overwrites. */
  lemma {:induction false} LastWriteIsLast(count: nat, ps: seq<Pixel>, k: int)
    ensures LastWrite(count, ps, k).Some? ==>
      exists j :: 0 <= j < |ps| && InBounds(count, ps[j].x, ps[j].y)
        && Index(count, ps[j].x, ps[j].y) == k && LastWrite(count, ps, k).value == ps[j].on
        && forall j' :: j < j' < |ps| ==>
             !(InBounds(count, ps[j'].x, ps[j'].y) && Index(count, ps[j'].x, ps[j'].y) == k)
  {
    if ps != [] {
      var p := ps[|ps| - 1];
      if !(InBounds(count, p.x, p.y) && Index(count, p.x, p.y) == k) {
        var init := ps[..|ps| - 1];
        LastWriteIsLast(count, init, k);
        if LastWrite(count, ps, k).Some? {
          var j :| 0 <= j < |init| && InBounds(count, init[j].x, init[j].y)
            && Index(count, init[j].x, init[j].y) == k && LastWrite(count, init, k).value == init[j].on
            && forall j' :: j < j' < |init| ==>
                 !(InBounds(count, init[j'].x, init[j'].y) && Index(count, init[j'].x, init[j'].y) == k);
          assert init[j] == ps[j];
          forall j' | j < j' < |ps|
            ensures !(InBounds(count, ps[j'].x, ps[j'].y) && Index(count, ps[j'].x, ps[j'].y) == k)
          {
            if j' < |init| { assert init[j'] == ps[j']; }
          }
        }
      }
    }
  }

  /** Last write wins: a drawn cell holds the value of the last in-bounds pixel aimed at it,
      and keeps its old value when no in-bounds pixel is (out-of-bounds pixels change nothing). */
  lemma {:induction false} DrawnAt(fb: seq<bv8>, count: nat, ps: seq<Pixel>, k: int)
    requires |fb| == 64 * count && 0 <= k < |fb|
    ensures Drawn(fb, count, ps)[k] == match LastWrite(count, ps, k)
                                       case Some(on) => CellValue(on)
                                       case None => fb[k]
  {
    if ps != [] {
      DrawnAt(fb, count, ps[..|ps| - 1], k);
    }
  }

  /** Drawing keeps every cell in {0, 1} when all cells were in {0, 1}. */
  lemma {:induction false} DrawnBinary(fb: seq<bv8>, count: nat, ps: seq<Pixel>)
    requires |fb| == 64 * count && AllBinary(fb)
    ensures AllBinary(Drawn(fb, count, ps))
  {
    if ps != [] {
      DrawnBinary(fb, count, ps[..|ps| - 1]);
    }
  }

  /** Reading back: after a stream that ends with an in-bounds pixel, its cell holds that
      pixel's value. */
  lemma DrawnReadBack(fb: seq<bv8>, count: nat, ps: seq<Pixel>, p: Pixel)
    requires |fb| == 64 * count && InBounds(count, p.x, p.y)
    ensures 0 <= Index(count, p.x, p.y) < |fb|
    ensures Drawn(fb, count, ps + [p])[Index(count, p.x, p.y)] == CellValue(p.on)
  {
    IndexInRange(count, p.x, p.y);
    assert (ps + [p])[..|ps + [p]| - 1] == ps;
  }

  /** The framebuffer of all-zero cells. */
  function Blank(n: nat): (fb: seq<bv8>)
    ensures |fb| == n && AllBinary(fb)
    ensures forall k :: 0 <= k < n ==> fb[k] == 0
  {
    seq(n, _ => 0)
  }
}
