/** convert_bayer_to_rgb of cameras.c: a Bayer image becomes RGB with two shift registers that
    slide along each line, one for the line itself and one for the averages of the lines above
    and below it. */
module Demosaic {
  import opened Basics

  // ---------------------------------------------------------------- the neighbourhood

  /** The neighbours of a place on a line of `n`; at the ends the second and the second last
      are mirrored. */
  function Before(i: nat, n: nat): nat
    requires i < n && n >= 2
    ensures Before(i, n) < n
  {
    if i == 0 then 1 else i - 1
  }

  function Behind(i: nat, n: nat): nat
    requires i < n && n >= 2
    ensures Behind(i, n) < n
  {
    if i == n - 1 then n - 2 else i + 1
  }

  function Average(a: Byte, b: Byte): Byte {
    (a + b) / 2
  }

  /** Three lines: the one above, the one in question, the one below. */
  datatype Lines = Lines(up: Bytes, mid: Bytes, down: Bytes)

  predicate LinesOk(l: Lines) {
    |l.mid| >= 2 && |l.up| == |l.mid| == |l.down|
  }

  /** The average of the left and the right neighbour, and of the upper and the lower one. */
  function Across(l: Lines, x: nat): Byte
    requires LinesOk(l) && x < |l.mid|
  {
    Average(l.mid[Before(x, |l.mid|)], l.mid[Behind(x, |l.mid|)])
  }

  function Vertical(l: Lines, x: nat): Byte
    requires LinesOk(l) && x < |l.mid|
  {
    Average(l.up[x], l.down[x])
  }

  /** The four-neighbour averages, each taken in two steps. */
  function Cross(l: Lines, x: nat): Byte
    requires LinesOk(l) && x < |l.mid|
  {
    Average(Across(l, x), Vertical(l, x))
  }

  function Corners(l: Lines, x: nat): Byte
    requires LinesOk(l) && x < |l.mid|
  {
    Average(Vertical(l, Before(x, |l.mid|)), Vertical(l, Behind(x, |l.mid|)))
  }

  /** The pattern is G R G R on even lines and B G B G on odd ones. */
  function Rgb(l: Lines, odd: bool, x: nat): (p: Bytes)
    requires LinesOk(l) && x < |l.mid|
    ensures |p| == 3
  {
    if !odd then
      if x % 2 == 0 then [Across(l, x), l.mid[x], Vertical(l, x)]
      else [l.mid[x], Cross(l, x), Corners(l, x)]
    else
      if x % 2 == 0 then [Corners(l, x), Cross(l, x), l.mid[x]]
      else [Vertical(l, x), l.mid[x], Across(l, x)]
  }

  /** The means that the comment in the source promises. */
  function Mean4(a: Byte, b: Byte, c: Byte, d: Byte): Byte {
    (a + b + c + d) / 4
  }

  function Documented(l: Lines, odd: bool, x: nat): (p: Bytes)
    requires LinesOk(l) && x < |l.mid|
    ensures |p| == 3
  {
    var a, b := Before(x, |l.mid|), Behind(x, |l.mid|);
    var cross := Mean4(l.mid[a], l.mid[b], l.up[x], l.down[x]);
    var corners := Mean4(l.up[a], l.up[b], l.down[a], l.down[b]);
    if !odd then
      if x % 2 == 0 then [Average(l.mid[a], l.mid[b]), l.mid[x], Average(l.up[x], l.down[x])]
      else [l.mid[x], cross, corners]
    else
      if x % 2 == 0 then [corners, cross, l.mid[x]]
      else [Average(l.up[x], l.down[x]), l.mid[x], Average(l.mid[a], l.mid[b])]
  }

  lemma TwoSteps(a: Byte, b: Byte, c: Byte, d: Byte)
    ensures Mean4(a, b, c, d) - 1 <= Average(Average(a, b), Average(c, d)) <= Mean4(a, b, c, d)
  {
  }

  /** A channel is at most one below the documented mean, and never above it; where it is
      taken from the pixel itself or from two neighbours it is exact. */
  lemma CloseToDocumented(l: Lines, odd: bool, x: nat, k: nat)
    requires LinesOk(l) && x < |l.mid| && k < 3
    ensures Rgb(l, odd, x)[k] <= Documented(l, odd, x)[k] <= Rgb(l, odd, x)[k] as int + 1
    ensures odd == (x % 2 == 1) ==> Rgb(l, odd, x) == Documented(l, odd, x)
  {
    var a, b := Before(x, |l.mid|), Behind(x, |l.mid|);
    TwoSteps(l.mid[a], l.mid[b], l.up[x], l.down[x]);
    TwoSteps(l.up[a], l.down[a], l.up[b], l.down[b]);
  }

  // ---------------------------------------------------------------- the shift registers

  type U32Register = r: int | 0 <= r < 0x1_0000_0000

  /** Four bytes in a register; the oldest one is no longer needed. */
  function Register(oldest: Byte, previous: Byte, current: Byte, next: Byte): U32Register {
    oldest * 0x100_0000 + previous * 0x1_0000 + current * 0x100 + next
  }

  /** (uint8_t)(r >> 8 * k) */
  function ByteOf(r: U32Register, k: nat): Byte
    requires k < 3
  {
    if k == 0 then r % 0x100 else if k == 1 then r / 0x100 % 0x100 else r / 0x1_0000 % 0x100
  }

  lemma RegisterBytes(o: Byte, p: Byte, c: Byte, n: Byte)
    ensures ByteOf(Register(o, p, c, n), 0) == n
    ensures ByteOf(Register(o, p, c, n), 1) == c
    ensures ByteOf(Register(o, p, c, n), 2) == p
  {
    var r := Register(o, p, c, n);
    assert r == (o * 0x1_0000 + p * 0x100 + c) * 0x100 + n;
    assert r / 0x100 == (o * 0x100 + p) * 0x100 + c;
    assert r / 0x1_0000 == o * 0x100 + p;
  }

  lemma RegisterShift(o: Byte, p: Byte, c: Byte, n: Byte)
    ensures Register(o, p, c, n) * 0x100 % 0x1_0000_0000 == Register(p, c, n, 0)
  {
    assert Register(o, p, c, n) * 0x100 == o * 0x1_0000_0000 + Register(p, c, n, 0);
  }

  /** The three bytes that the loop writes. */
  function FromRegisters(odd: bool, x: nat, hVals: U32Register, vSums: U32Register): (p: Bytes)
    ensures |p| == 3
  {
    var hSum := Average(ByteOf(hVals, 2), ByteOf(hVals, 0));
    var corners := Average(ByteOf(vSums, 2), ByteOf(vSums, 0));
    if !odd then
      if x % 2 == 0 then [hSum, ByteOf(hVals, 1), ByteOf(vSums, 1)]
      else [ByteOf(hVals, 1), Average(hSum, ByteOf(vSums, 1)), corners]
    else
      if x % 2 == 0 then [corners, Average(hSum, ByteOf(vSums, 1)), ByteOf(hVals, 1)]
      else [ByteOf(vSums, 1), ByteOf(hVals, 1), hSum]
  }

  /** The three bytes written for the right column. */
  function FromRegistersRight(odd: bool, x: nat, hVals: U32Register, vSums: U32Register): (p: Bytes)
    ensures |p| == 3
  {
    var hSum := ByteOf(hVals, 0);
    if !odd then
      if x % 2 == 0 then [hSum, ByteOf(hVals, 1), ByteOf(vSums, 1)]
      else [ByteOf(hVals, 1), Average(hSum, ByteOf(vSums, 1)), ByteOf(vSums, 0)]
    else
      if x % 2 == 0 then [ByteOf(vSums, 0), Average(hSum, ByteOf(vSums, 1)), ByteOf(hVals, 1)]
      else [ByteOf(vSums, 1), ByteOf(hVals, 1), hSum]
  }

  lemma SameAverage(a: Byte)
    ensures Average(a, a) == a
  {
  }

  lemma InnerPixel(l: Lines, odd: bool, x: nat, oh: Byte, ov: Byte)
    requires LinesOk(l) && x < |l.mid|
    ensures
      var w := |l.mid|;
      var hVals := Register(oh, l.mid[Before(x, w)], l.mid[x], l.mid[Behind(x, w)]);
      var vSums := Register(ov, Vertical(l, Before(x, w)), Vertical(l, x), Vertical(l, Behind(x, w)));
      && FromRegisters(odd, x, hVals, vSums) == Rgb(l, odd, x)
      && (x == w - 1 ==> FromRegistersRight(odd, x, hVals, vSums) == Rgb(l, odd, x))
  {
    hide Register, ByteOf, Vertical, Average;
    var w := |l.mid|;
    RegisterBytes(oh, l.mid[Before(x, w)], l.mid[x], l.mid[Behind(x, w)]);
    RegisterBytes(ov, Vertical(l, Before(x, w)), Vertical(l, x), Vertical(l, Behind(x, w)));
    SameAverage(l.mid[w - 2]);
    SameAverage(Vertical(l, w - 2));
  }

  // ---------------------------------------------------------------- one line

  /** The first `n` pixels of a line. */
  function RowOf(l: Lines, odd: bool, n: nat): (p: Bytes)
    requires LinesOk(l) && n <= |l.mid|
    ensures |p| == 3 * n
  {
    if n == 0 then [] else RowOf(l, odd, n - 1) + Rgb(l, odd, n - 1)
  }

  method StorePixel(dst: array<Byte>, at: nat, p: Bytes)
    requires |p| == 3 && at + 3 <= dst.Length
    modifies dst
    ensures dst[..at + 3] == old(dst[..at]) + p
    ensures dst[at + 3..] == old(dst[at + 3..])
  {
    dst[at] := p[0];
    dst[at + 1] := p[1];
    dst[at + 2] := p[2];
  }

  /** What the registers hold before pixel `x` is completed; `oh` and `ov` are left over. */
  predicate Loaded(l: Lines, x: nat, oh: Byte, ov: Byte, hVals: U32Register, vSums: U32Register) {
    && LinesOk(l) && x < |l.mid|
    && hVals == Register(oh, l.mid[Before(x, |l.mid|)], l.mid[x], 0)
    && vSums == Register(ov, Vertical(l, Before(x, |l.mid|)), Vertical(l, x), 0)
  }

  function FirstH(l: Lines): U32Register
    requires LinesOk(l)
  {
    l.mid[0] as int * 0x100 + l.mid[1] as int * 0x1_0000
  }

  /** (sum << 7) & 0xFF00 and (sum << 15) & 0xFF0000 */
  function FirstV(l: Lines): U32Register
    requires LinesOk(l)
  {
    (l.up[0] as int + l.down[0] as int) * 0x80 / 0x100 * 0x100
      + (l.up[1] as int + l.down[1] as int) * 0x8000 / 0x1_0000 * 0x1_0000
  }

  lemma LoadFirst(l: Lines)
    requires LinesOk(l)
    ensures Loaded(l, 0, 0, 0, FirstH(l), FirstV(l))
  {
  }

  lemma RegisterStep(o: Byte, p: Byte, c: Byte, n: Byte)
    ensures
      var r := Register(o, p, c, 0);
      && r as int + n as int == Register(o, p, c, n) as int
      && Register(o, p, c, n) * 0x100 % 0x1_0000_0000 == Register(p, c, n, 0)
      && ByteOf(r, 2) == p
  {
    RegisterBytes(o, p, c, 0);
    RegisterShift(o, p, c, n);
  }

  lemma CompletePixel(l: Lines, odd: bool, x: nat, oh: Byte, ov: Byte, hVals: U32Register, vSums: U32Register)
    requires Loaded(l, x, oh, ov, hVals, vSums)
    ensures
      var w := |l.mid|;
      var h: int, v: int := hVals as int + l.mid[Behind(x, w)] as int, vSums as int + Vertical(l, Behind(x, w)) as int;
      && h < 0x1_0000_0000 && v < 0x1_0000_0000
      && FromRegisters(odd, x, h, v) == Rgb(l, odd, x)
      && (x == w - 1 ==> FromRegistersRight(odd, x, h, v) == Rgb(l, odd, x))
      && (x == w - 1 ==> ByteOf(hVals, 2) == l.mid[Behind(x, w)] && ByteOf(vSums, 2) == Vertical(l, Behind(x, w)))
      && (x < w - 1 ==> Loaded(l, x + 1, l.mid[Before(x, w)], Vertical(l, Before(x, w)),
                               h * 0x100 % 0x1_0000_0000, v * 0x100 % 0x1_0000_0000))
  {
    hide FromRegisters, FromRegistersRight, Rgb, Vertical, ByteOf, Register;
    var w := |l.mid|;
    InnerPixel(l, odd, x, oh, ov);
    RegisterStep(oh, l.mid[Before(x, w)], l.mid[x], l.mid[Behind(x, w)]);
    RegisterStep(ov, Vertical(l, Before(x, w)), Vertical(l, x), Vertical(l, Behind(x, w)));
  }

  lemma AppendPixel(front: Bytes, l: Lines, odd: bool, x: nat)
    requires LinesOk(l) && x < |l.mid|
    ensures (front + RowOf(l, odd, x)) + Rgb(l, odd, x) == front + RowOf(l, odd, x + 1)
  {
  }

  lemma NoPixels(front: Bytes, l: Lines, odd: bool)
    requires LinesOk(l)
    ensures front + RowOf(l, odd, 0) == front
  {
  }

  /** The turn of the inner loop for one pixel. */
  method ConvertPixel(l: Lines, odd: bool, x: nat, hVals: U32Register, vSums: U32Register, dst: array<Byte>, at: nat,
                      ghost oh: Byte, ghost ov: Byte)
    returns (hVals': U32Register, vSums': U32Register)
    requires Loaded(l, x, oh, ov, hVals, vSums) && x < |l.mid| - 1 && at + 3 <= dst.Length
    modifies dst
    ensures dst[..at + 3] == old(dst[..at]) + Rgb(l, odd, x) && dst[at + 3..] == old(dst[at + 3..])
    ensures Loaded(l, x + 1, l.mid[Before(x, |l.mid|)], Vertical(l, Before(x, |l.mid|)), hVals', vSums')
  {
    CompletePixel(l, odd, x, oh, ov, hVals, vSums);
    hide FromRegisters, Rgb, Loaded, Vertical;
    var h: U32Register, v: U32Register := hVals + l.mid[x + 1], vSums + Vertical(l, x + 1);
    StorePixel(dst, at, FromRegisters(odd, x, h, v));
    hVals', vSums' := h * 0x100 % 0x1_0000_0000, v * 0x100 % 0x1_0000_0000;
  }

  method ConvertLastPixel(l: Lines, odd: bool, hVals: U32Register, vSums: U32Register, dst: array<Byte>, at: nat,
                          ghost oh: Byte, ghost ov: Byte)
    requires LinesOk(l) && Loaded(l, |l.mid| - 1, oh, ov, hVals, vSums) && at + 3 <= dst.Length
    modifies dst
    ensures dst[..at + 3] == old(dst[..at]) + Rgb(l, odd, |l.mid| - 1) && dst[at + 3..] == old(dst[at + 3..])
  {
    CompletePixel(l, odd, |l.mid| - 1, oh, ov, hVals, vSums);
    hide FromRegistersRight, Rgb, Loaded, Vertical, ByteOf;
    var h: U32Register, v: U32Register := hVals + ByteOf(hVals, 2), vSums + ByteOf(vSums, 2);
    StorePixel(dst, at, FromRegistersRight(odd, |l.mid| - 1, h, v));
  }

  /** The turn of the outer loop for one line. */
  method ConvertRow(l: Lines, odd: bool, dst: array<Byte>, at: nat)
    requires LinesOk(l) && at + 3 * |l.mid| <= dst.Length
    modifies dst
    ensures dst[..at + 3 * |l.mid|] == old(dst[..at]) + RowOf(l, odd, |l.mid|)
    ensures dst[at + 3 * |l.mid|..] == old(dst[at + 3 * |l.mid|..])
  {
    hide Rgb, Loaded, Vertical, FirstH, FirstV, RowOf, Before;
    var w := |l.mid|;
    var hVals: U32Register, vSums: U32Register := FirstH(l), FirstV(l);
    var out := at;
    ghost var oh: Byte, ov: Byte := 0, 0;
    LoadFirst(l);
    NoPixels(old(dst[..at]), l, odd);
    for x := 0 to w - 1
      invariant out == at + 3 * x && Loaded(l, x, oh, ov, hVals, vSums)
      invariant dst[..out] == old(dst[..at]) + RowOf(l, odd, x)
      invariant dst[out..] == old(dst[out..])
    {
      hVals, vSums := ConvertPixel(l, odd, x, hVals, vSums, dst, out, oh, ov);
      oh, ov := l.mid[Before(x, w)], Vertical(l, Before(x, w));
      AppendPixel(old(dst[..at]), l, odd, x);
      DropDrop(old(dst[..]), out, 3);
      out := out + 3;
    }
    ConvertLastPixel(l, odd, hVals, vSums, dst, out, oh, ov);
    AppendPixel(old(dst[..at]), l, odd, w - 1);
    DropDrop(old(dst[..]), out, 3);
  }

  // ---------------------------------------------------------------- the image

  lemma LineFits(y: nat, h: nat, w: nat)
    requires y < h
    ensures y * w + w <= h * w && (y + 1) * w == y * w + w
  {
    assert h * w == y * w + (h - y) * w;
    assert (h - y) * w == w + (h - y - 1) * w;
  }

  function LineAt(raw: Bytes, w: nat, y: nat): (l: Bytes)
    requires y * w + w <= |raw|
    ensures |l| == w
  {
    raw[y * w..y * w + w]
  }

  /** The line and its neighbours, mirrored at the top and at the bottom. */
  function LinesAt(raw: Bytes, w: nat, h: nat, y: nat): (l: Lines)
    requires w >= 2 && h >= 2 && y < h && h * w <= |raw|
    ensures LinesOk(l) && |l.mid| == w
  {
    LineFits(Before(y, h), h, w);
    LineFits(y, h, w);
    LineFits(Behind(y, h), h, w);
    Lines(LineAt(raw, w, Before(y, h)), LineAt(raw, w, y), LineAt(raw, w, Behind(y, h)))
  }

  /** The first `n` lines of the result. */
  function Image(raw: Bytes, w: nat, h: nat, n: nat): (p: Bytes)
    requires w >= 2 && h >= 2 && n <= h && h * w <= |raw|
    ensures |p| == 3 * (n * w)
  {
    if n == 0 then []
    else
      LineFits(n - 1, h, w);
      Image(raw, w, h, n - 1) + RowOf(LinesAt(raw, w, h, n - 1), (n - 1) % 2 == 1, w)
  }

  lemma ImageSnoc(raw: Bytes, w: nat, h: nat, n: nat)
    requires w >= 2 && h >= 2 && n < h && h * w <= |raw|
    ensures Image(raw, w, h, n + 1) == Image(raw, w, h, n) + RowOf(LinesAt(raw, w, h, n), n % 2 == 1, w)
    ensures 3 * (n * w) + 3 * w <= 3 * (h * w)
  {
    hide RowOf, LinesAt;
    LineFits(n, h, w);
  }

  /** The lines the pointers point at are the line and its mirrored neighbours. */
  lemma PointedLines(raw: Bytes, w: nat, h: nat, y: nat, prevLine: nat, curLine: nat, nextLine: nat)
    requires w >= 2 && h >= 2 && y < h && h * w <= |raw|
    requires prevLine == Before(y, h) * w && curLine == y * w && nextLine == Behind(y, h) * w
    ensures prevLine + w <= |raw| && curLine + w <= |raw| && nextLine + w <= |raw|
    ensures LinesAt(raw, w, h, y)
         == Lines(raw[prevLine..prevLine + w], raw[curLine..curLine + w], raw[nextLine..nextLine + w])
  {
    LineFits(Before(y, h), h, w);
    LineFits(y, h, w);
    LineFits(Behind(y, h), h, w);
  }

  // ---------------------------------------------------------------- the line pointers

  /** The lines that `prevLine` and `nextLine` point at. */
  datatype Neighbours = Neighbours(prev: nat, next: nat)

  /** The normal case and the two border cases for line `y`. */
  function Mirrored(h: nat, y: nat, n: Neighbours): Neighbours {
    if 0 < y < h - 1 then Neighbours(y - 1, n.next)
    else if y == 0 then Neighbours(n.next, n.next)
    else Neighbours(n.prev, n.prev)
  }

  /** Where they point while line `y` is read; reading a line moves both to the next one. Before
      the first line `prevLine` is not set, and not read. */
  function NeighboursAt(h: nat, y: nat): Neighbours {
    if y == 0 then Mirrored(h, 0, Neighbours(0, 1))
    else
      var n := NeighboursAt(h, y - 1);
      Mirrored(h, y, Neighbours(n.prev + 1, n.next + 1))
  }

  predicate InImage(h: nat, n: Neighbours) {
    n.prev < h && n.next < h
  }

  lemma {:induction false} NeighboursAreMirrored(h: nat, y: nat)
    requires h >= 3 && y < h
    ensures NeighboursAt(h, y) == Neighbours(Before(y, h), Behind(y, h))
    decreases y
  {
    if y == 0 {
    } else {
      NeighboursAreMirrored(h, y - 1);
    }
  }

  /** The pointers stay in the image exactly if it has at least three lines, or none: with one
      line both point behind it at once, with two lines the second one's point behind them. */
  lemma NeighboursStay(h: nat)
    ensures (forall y | 0 <= y < h :: InImage(h, NeighboursAt(h, y))) <==> h == 0 || h >= 3
    ensures NeighboursAt(1, 0) == Neighbours(1, 1) && NeighboursAt(2, 1) == Neighbours(2, 2)
  {
    if h >= 3 {
      forall y | 0 <= y < h ensures InImage(h, NeighboursAt(h, y)) {
        NeighboursAreMirrored(h, y);
      }
    }
    assert NeighboursAt(2, 0) == Neighbours(1, 1);
    assert h == 1 ==> !InImage(h, NeighboursAt(h, 0));
    assert h == 2 ==> !InImage(h, NeighboursAt(h, 1));
  }

  /** The pointers, as places in the buffer, before line `y`. */
  ghost predicate Pointers(w: nat, h: nat, y: nat, prevLine: nat, curLine: nat, nextLine: nat) {
    && curLine == y * w
    && (if y == 0 then nextLine == w
        else
          var n := NeighboursAt(h, y - 1);
          prevLine == (n.prev + 1) * w && nextLine == (n.next + 1) * w)
  }

  lemma LineAfter(y: nat, w: nat)
    ensures (y + 1) * w == y * w + w
  {
  }

  method SetPointers(w: nat, h: nat, y: nat, prevLine: nat, curLine: nat, nextLine: nat)
    returns (prevLine': nat, nextLine': nat)
    requires y < h && Pointers(w, h, y, prevLine, curLine, nextLine)
    ensures prevLine' == NeighboursAt(h, y).prev * w && nextLine' == NeighboursAt(h, y).next * w
    ensures Pointers(w, h, y + 1, prevLine' + w, curLine + w, nextLine' + w)
  {
    prevLine', nextLine' := prevLine, nextLine;
    if 0 < y < h - 1 {
      LineFits(y - 1, h, w);
      prevLine' := curLine - w;
    } else if y == 0 {
      prevLine' := nextLine;
    } else {
      nextLine' := prevLine';
    }
    LineAfter(y, w);
    LineAfter(NeighboursAt(h, y).prev, w);
    LineAfter(NeighboursAt(h, y).next, w);
  }

  /** A line is inside the buffer exactly if it is one of the image. */
  lemma LineInBuffer(line: nat, h: nat, w: nat)
    requires w > 0
    ensures line * w + w <= h * w <==> line < h
  {
    if line < h {
      LineFits(line, h, w);
    } else {
      assert line * w == h * w + (line - h) * w;
    }
  }

  /** The turn of the outer loop. */
  method ConvertLine(raw: Bytes, w: nat, h: nat, y: nat, prevLine: nat, curLine: nat, nextLine: nat, dst: array<Byte>)
    returns (ok: bool, prevLine': nat, nextLine': nat)
    requires w >= 2 && y < h && h * w <= |raw| && 3 * (h * w) <= dst.Length
    requires Pointers(w, h, y, prevLine, curLine, nextLine) && curLine == y * w
    modifies dst
    ensures ok <==> InImage(h, NeighboursAt(h, y))
    ensures curLine + w <= h * w && 3 * (curLine + w) <= dst.Length
    ensures Pointers(w, h, y + 1, prevLine' + w, curLine + w, nextLine' + w)
    ensures ok && h >= 3 ==>
              dst[..3 * (curLine + w)] == old(dst[..3 * curLine]) + RowOf(LinesAt(raw, w, h, y), y % 2 == 1, w)
    ensures dst[3 * (curLine + w)..] == old(dst[3 * (curLine + w)..])
  {
    hide RowOf, LinesAt, Before, Behind, NeighboursAt, Pointers;
    prevLine', nextLine' := SetPointers(w, h, y, prevLine, curLine, nextLine);
    LineInBuffer(NeighboursAt(h, y).prev, h, w);
    LineInBuffer(NeighboursAt(h, y).next, h, w);
    LineFits(y, h, w);
    ok := prevLine' + w <= h * w && nextLine' + w <= h * w;
    if ok {
      if h >= 3 {
        NeighboursAreMirrored(h, y);
        PointedLines(raw, w, h, y, prevLine', curLine, nextLine');
      }
      ConvertRow(Lines(raw[prevLine'..prevLine' + w], raw[curLine..curLine + w], raw[nextLine'..nextLine' + w]),
                 y % 2 == 1, dst, 3 * curLine);
    }
  }

  /** What is behind a place stays behind a later one. */
  lemma SameBehind(before: Bytes, now: Bytes, at: nat, end: nat)
    requires at <= end <= |before| == |now| && before[at..] == now[at..]
    ensures before[end..] == now[end..]
  {
    DropDrop(before, at, end - at);
    DropDrop(now, at, end - at);
  }

  lemma PointersStart(w: nat, h: nat)
    ensures Pointers(w, h, 0, 0, 0, w)
  {
  }

  lemma ImageNothing(raw: Bytes, w: nat, h: nat)
    requires w >= 2 && h * w <= |raw|
    ensures h >= 2 ==> Image(raw, w, h, 0) == []
  {
  }

  /** convert_bayer_to_rgb. It ends, with `ok` false, where a line pointer leaves the image. */
  method ConvertBayerToRgb(raw: Bytes, w: nat, h: nat, dst: array<Byte>) returns (ok: bool)
    requires w >= 2 && h * w <= |raw| && 3 * (h * w) <= dst.Length
    modifies dst
    ensures ok <==> h == 0 || h >= 3
    ensures h >= 3 ==> dst[..3 * (h * w)] == Image(raw, w, h, h)
    ensures dst[3 * (h * w)..] == old(dst[3 * (h * w)..])
  {
    hide RowOf, Image, LinesAt, NeighboursAt, Pointers, InImage;
    var prevLine: nat, curLine: nat, nextLine: nat := 0, 0, w;
    ImageNothing(raw, w, h);
    NeighboursStay(h);
    PointersStart(w, h);
    for y := 0 to h
      invariant Pointers(w, h, y, prevLine, curLine, nextLine) && curLine == y * w && curLine <= h * w
      invariant forall k | 0 <= k < y :: InImage(h, NeighboursAt(h, k))
      invariant h >= 3 ==> dst[..3 * curLine] == Image(raw, w, h, y)
      invariant dst[3 * (h * w)..] == old(dst[3 * (h * w)..])
    {
      ghost var before := dst[..];
      ok, prevLine, nextLine := ConvertLine(raw, w, h, y, prevLine, curLine, nextLine, dst);
      SameBehind(before, dst[..], 3 * (curLine + w), 3 * (h * w));
      if !ok {
        return;
      }
      if h >= 3 {
        ImageSnoc(raw, w, h, y);
      }
      LineAfter(y, w);
      prevLine, curLine, nextLine := prevLine + w, curLine + w, nextLine + w;
    }
    ok := true;
  }

  lemma {:induction false} RowAt(l: Lines, odd: bool, n: nat, x: nat, k: nat)
    requires LinesOk(l) && x < n <= |l.mid| && k < 3
    ensures RowOf(l, odd, n)[3 * x + k] == Rgb(l, odd, x)[k]
    decreases n
  {
    if x < n - 1 {
      RowAt(l, odd, n - 1, x, k);
    }
  }

  lemma Joined(p: Bytes, q: Bytes, i: nat)
    requires i < |p| + |q|
    ensures (p + q)[i] == if i < |p| then p[i] else q[i - |p|]
  {
  }

  /** Where channel `k` of a pixel is in the result. */
  function Channel(w: nat, y: nat, x: nat, k: nat): nat {
    3 * (y * w + x) + k
  }

  lemma ChannelFits(w: nat, y: nat, x: nat, k: nat, n: nat)
    requires y < n && x < w && k < 3
    ensures Channel(w, y, x, k) < 3 * (n * w) && Channel(w, y, x, k) == 3 * (y * w) + (3 * x + k)
  {
    LineFits(y, n, w);
  }

  /** Every channel of the result is that of the neighbourhood formula. */
  lemma {:induction false} ImageAt(raw: Bytes, w: nat, h: nat, n: nat, y: nat, x: nat, k: nat)
    requires w >= 2 && h >= 2 && y < n <= h && x < w && k < 3 && h * w <= |raw|
    ensures Channel(w, y, x, k) < 3 * (n * w)
    ensures Image(raw, w, h, n)[Channel(w, y, x, k)] == Rgb(LinesAt(raw, w, h, y), y % 2 == 1, x)[k]
    decreases n
  {
    hide LinesAt, RowOf, Rgb, Image, Channel;
    ChannelFits(w, y, x, k, n);
    LineFits(n - 1, h, w);
    ImageSnoc(raw, w, h, n - 1);
    Joined(Image(raw, w, h, n - 1), RowOf(LinesAt(raw, w, h, n - 1), (n - 1) % 2 == 1, w), Channel(w, y, x, k));
    if y < n - 1 {
      ImageAt(raw, w, h, n - 1, y, x, k);
    } else {
      RowAt(LinesAt(raw, w, h, y), y % 2 == 1, w, x, k);
    }
  }
}
