/** The bit-stream unpackers of cameras.c and registration.c: a shift register that takes in
    bytes as it needs them, the same for 8-bit output, and the unrolled 11-bit version. */
module Unpackers {
  import opened Basics
  import opened Division

  // ---------------------------------------------------------------- the big-endian bit stream

  function Pow2(k: nat): (p: nat)
    ensures p > 0
  {
    if k == 0 then 1 else 2 * Pow2(k - 1)
  }

  function Bit(b: Bytes, j: nat): (bit: nat)
    requires j < 8 * |b|
    ensures bit <= 1
  {
    b[j / 8] / Pow2(7 - j % 8) % 2
  }

  /** `length` bits from `start` on, most significant first. */
  function Bits(b: Bytes, start: nat, length: nat): (v: nat)
    requires start + length <= 8 * |b|
    ensures v < Pow2(length)
  {
    if length == 0 then 0 else 2 * Bits(b, start, length - 1) + Bit(b, start + length - 1)
  }

  lemma {:induction false} Pow2Sum(j: nat, k: nat)
    ensures Pow2(j + k) == Pow2(j) * Pow2(k)
    decreases k
  {
    if k == 0 {
    } else {
      Pow2Sum(j, k - 1);
      assert Pow2(j + k) == 2 * (Pow2(j) * Pow2(k - 1));
    }
  }

  lemma Double(x: nat, y: nat)
    ensures x * (2 * y) == 2 * (x * y)
  {
  }

  lemma {:induction false} BitsConcat(b: Bytes, start: nat, m: nat, n: nat)
    requires start + m + n <= 8 * |b|
    ensures Bits(b, start, m + n) == Bits(b, start, m) * Pow2(n) + Bits(b, start + m, n)
    decreases n
  {
    if n == 0 {
    } else {
      hide Bit;
      BitsConcat(b, start, m, n - 1);
      Double(Bits(b, start, m), Pow2(n - 1));
    }
  }

  /** y mod 2m from its half and its last bit. */
  lemma ModHalf(y: nat, m: nat)
    requires m > 0
    ensures y % (2 * m) == 2 * (y / 2 % m) + y % 2
  {
    var q, r := y / 2 / m, y / 2 % m;
    assert y / 2 == q * m + r;
    assert y == q * (2 * m) + (2 * r + y % 2);
    DivUnique(y, 2 * m, q, 2 * r + y % 2);
  }

  lemma Regroup(q: nat, r: nat, a: nat, c: nat)
    ensures (q * c + r) * a == q * (a * c) + r * a
  {
    assert (q * c + r) * a == (q * c) * a + r * a;
    assert (q * c) * a == q * (c * a) == q * (a * c);
  }

  lemma RemainderFits(r: nat, s: nat, a: nat, c: nat)
    requires r < c && s < a
    ensures r * a + s < a * c
  {
    var k := c - (r + 1);
    assert c == k + r + 1;
    assert a * c == a * k + r * a + a;
  }

  lemma NestedQuotient(x: nat, a: nat, c: nat, q: nat, r: nat, q': nat, r': nat)
    requires r < a && r' < c && x == q * a + r && q == q' * c + r'
    ensures a * c > 0 && x / (a * c) == q'
  {
    Regroup(q', r', a, c);
    RemainderFits(r', r, a, c);
    DivUnique(x, a * c, q', r' * a + r);
  }

  lemma DivDiv(x: nat, a: nat, c: nat)
    requires a > 0 && c > 0
    ensures a * c > 0 && x / a / c == x / (a * c)
  {
    NestedQuotient(x, a, c, x / a, x % a, x / a / c, x / a % c);
  }

  lemma BitOfByte(b: Bytes, c: nat, i: nat)
    requires c < |b| && i < 8
    ensures Bit(b, 8 * c + i) == b[c] / Pow2(7 - i) % 2
  {
    assert (8 * c + i) / 8 == c && (8 * c + i) % 8 == i;
  }

  lemma OneMoreBit(x: nat, k: nat, n: nat)
    requires n > 0
    ensures x / Pow2(k) % Pow2(n) == 2 * (x / Pow2(k + 1) % Pow2(n - 1)) + x / Pow2(k) % 2
  {
    DivDiv(x, Pow2(k), 2);
    ModHalf(x / Pow2(k), Pow2(n - 1));
  }

  /** The bits of one byte. */
  lemma {:induction false} ByteBits(b: Bytes, c: nat, s: nat, n: nat)
    requires c < |b| && s + n <= 8
    ensures Bits(b, 8 * c + s, n) == b[c] / Pow2(8 - s - n) % Pow2(n)
    decreases n
  {
    if n == 0 {
    } else {
      hide Bit;
      var k := 8 - s - n;
      ByteBits(b, c, s, n - 1);
      BitOfByte(b, c, 7 - k);
      hide Pow2;
      OneMoreBit(b[c], k, n);
    }
  }

  // ---------------------------------------------------------------- the shift register

  const WORD := 0x1_0000_0000

  /** What the register is known to hold: its low bits are the unread bits of the stream. */
  predicate Register(b: Bytes, buffer: nat, bitsIn: nat, start: nat) {
    && start + bitsIn <= 8 * |b| && bitsIn < 32 && buffer < WORD
    && buffer % Pow2(bitsIn) == Bits(b, start, bitsIn)
  }

  lemma Pow2Values()
    ensures Pow2(8) == 0x100 && Pow2(32) == WORD && Pow2(11) == 2048
  {
    assert Pow2(4) == 16;
    Pow2Sum(4, 4);
    Pow2Sum(8, 8);
    Pow2Sum(16, 16);
    Pow2Sum(8, 3);
  }

  lemma ModMod(x: nat, a: nat, c: nat)
    requires a > 0 && c > 0
    ensures a * c > 0 && x % (a * c) % a == x % a
  {
    RemainderFits(0, 0, a, c);
    var q, r := x / (a * c), x % (a * c);
    assert x == q * (a * c) + r;
    assert r == (r / a) * a + r % a;
    assert q * (a * c) + (r / a) * a == (q * c + r / a) * a by {
      Regroup(q, r / a, a, c);
    }
    DivUnique(x, a, q * c + r / a, r % a);
  }

  lemma ByteAlone(x: Byte)
    ensures x / Pow2(0) % Pow2(8) == x
  {
    Pow2Values();
    assert Pow2(0) == 1;
  }

  /** One byte more of the stream. */
  lemma NextByte(b: Bytes, start: nat, n: nat)
    requires (start + n) % 8 == 0 && start + n + 8 <= 8 * |b|
    ensures Bits(b, start, n + 8) == Bits(b, start, n) * 0x100 + b[(start + n) / 8]
  {
    Pow2Values();
    BitsConcat(b, start, n, 8);
    ByteBits(b, (start + n) / 8, 0, 8);
    ByteAlone(b[(start + n) / 8]);
  }

  lemma WordSplit(n: nat)
    requires n + 8 < 32
    ensures Pow2(n + 8) == Pow2(n) * 0x100 && WORD == Pow2(n + 8) * Pow2(24 - n)
  {
    Pow2Values();
    Pow2Sum(n, 8);
    Pow2Sum(n + 8, 24 - n);
  }

  lemma AppendByte(buffer: nat, byte: Byte, p: nat)
    requires p > 0
    ensures p * 0x100 > 0 && (buffer * 0x100 + byte) % (p * 0x100) == buffer % p * 0x100 + byte
  {
    var q, r := buffer / p, buffer % p;
    assert buffer == q * p + r;
    assert buffer * 0x100 + byte == q * (p * 0x100) + (r * 0x100 + byte);
    DivUnique(buffer * 0x100 + byte, p * 0x100, q, r * 0x100 + byte);
  }

  lemma ShiftLow(buffer: nat, byte: Byte, p: nat, rest: nat)
    requires p > 0 && rest > 0 && WORD == p * 0x100 * rest
    ensures p * 0x100 > 0 && (buffer * 0x100 + byte) % WORD % (p * 0x100) == buffer % p * 0x100 + byte
  {
    ModMod(buffer * 0x100 + byte, p * 0x100, rest);
    AppendByte(buffer, byte, p);
  }

  /** Shifting a byte in: the upper bits that leave the 32-bit register have all been used. */
  lemma ShiftIn(b: Bytes, buffer: nat, bitsIn: nat, start: nat)
    requires Register(b, buffer, bitsIn, start) && bitsIn + 8 < 32
    requires (start + bitsIn) % 8 == 0 && start + bitsIn + 8 <= 8 * |b|
    ensures Register(b, (buffer * 0x100 + b[(start + bitsIn) / 8]) % WORD, bitsIn + 8, start)
  {
    hide Bits, Pow2;
    var byte := b[(start + bitsIn) / 8];
    WordSplit(bitsIn);
    NextByte(b, start, bitsIn);
    ShiftLow(buffer, byte, Pow2(bitsIn), Pow2(24 - bitsIn));
  }

  lemma SplitWord(x: nat, low: nat, high: nat, u: nat, v: nat)
    requires low > 0 && high > 0 && u < high && v < low
    requires high * low > 0 && x % (high * low) == u * low + v
    ensures x / low % high == u && x % low == v
  {
    var q := x / (high * low);
    assert x == q * (high * low) + (u * low + v);
    Regroup(q, u, low, high);
    assert q * (low * high) == q * (high * low);
    DivUnique(x, low, q * high + u, v);
    DivUnique(q * high + u, high, q, u);
  }

  /** Taking the next vw bits off the top of the unread ones. */
  lemma TakeBits(b: Bytes, buffer: nat, bitsIn: nat, start: nat, vw: nat)
    requires Register(b, buffer, bitsIn, start) && vw <= bitsIn
    ensures buffer / Pow2(bitsIn - vw) % Pow2(vw) == Bits(b, start, vw)
    ensures Register(b, buffer, bitsIn - vw, start + vw)
  {
    var low := Pow2(bitsIn - vw);
    Pow2Sum(vw, bitsIn - vw);
    BitsConcat(b, start, vw, bitsIn - vw);
    SplitWord(buffer, low, Pow2(vw), Bits(b, start, vw), Bits(b, start + vw, bitsIn - vw));
  }

  // ---------------------------------------------------------------- the generic unpackers

  type Pixel16 = v: int | 0 <= v < 0x1_0000

  lemma MulMonotone(i: nat, n: nat, vw: nat)
    requires i <= n
    ensures i * vw <= n * vw && (i + 1) * vw == i * vw + vw
  {
    assert n * vw == i * vw + (n - i) * vw;
  }

  lemma ThirtyTwoBits(vw: nat)
    requires vw <= 16
    ensures Pow2(vw) <= 0x1_0000
  {
    Pow2Values();
    assert Pow2(16) == 0x1_0000 by { Pow2Sum(8, 8); }
    Pow2Sum(vw, 16 - vw);
    assert Pow2(16) == Pow2(vw) * Pow2(16 - vw) >= Pow2(vw) by {
      MulAtLeast(Pow2(16 - vw), Pow2(vw));
    }
  }

  lemma EmptyRegister(b: Bytes)
    ensures Register(b, 0, 0, 0) && Bits(b, 0, 0) == 0
  {
  }

  /** The inner loop: bytes are shifted in until there are enough bits. */
  method Refill(src: Bytes, pos: nat, buffer: nat, bitsIn: nat, vw: nat, ghost start: nat)
    returns (pos': nat, buffer': nat, bitsIn': nat)
    requires vw <= 24 && bitsIn < 8 && start + bitsIn == 8 * pos && start + vw <= 8 * |src|
    requires Register(src, buffer, bitsIn, start)
    ensures vw <= bitsIn' < vw + 8 && start + bitsIn' == 8 * pos'
    ensures Register(src, buffer', bitsIn', start)
  {
    hide Register;
    pos', buffer', bitsIn' := pos, buffer, bitsIn;
    while bitsIn' < vw
      invariant bitsIn' < vw + 8 && start + bitsIn' == 8 * pos'
      invariant Register(src, buffer', bitsIn', start)
      decreases vw - bitsIn'
    {
      ShiftIn(src, buffer', bitsIn', start);
      buffer' := (buffer' * 0x100 + src[pos']) % WORD;
      pos' := pos' + 1;
      bitsIn' := bitsIn' + 8;
    }
  }

  /** Is `v` the i-th slice of vw bits? */
  predicate IsSlice(src: Bytes, vw: nat, i: nat, v: nat) {
    (i + 1) * vw == i * vw + vw <= 8 * |src| && v == Bits(src, i * vw, vw)
  }

  lemma SliceHere(src: Bytes, vw: nat, i: nat, n: nat, start: nat, v: nat)
    requires start == i * vw && i < n && n * vw <= 8 * |src|
    ensures start + vw == (i + 1) * vw <= 8 * |src|
    ensures v == Bits(src, start, vw) ==> IsSlice(src, vw, i, v)
  {
    MulMonotone(i, n, vw);
    MulMonotone(i + 1, n, vw);
  }

  /** convert_packed_to_16bit: the i-th output is the i-th slice of vw bits of the stream. */
  method ConvertPackedTo16Bit(src: Bytes, dest: array<Pixel16>, vw: nat, n: nat)
    requires vw <= 16 && n <= dest.Length && n * vw <= 8 * |src|
    modifies dest
    ensures forall i | 0 <= i < n :: IsSlice(src, vw, i, dest[i])
    ensures forall i | n <= i < dest.Length :: dest[i] == old(dest[i])
  {
    var buffer: nat, bitsIn: nat, pos: nat := 0, 0, 0;
    ghost var start: nat := 0;
    EmptyRegister(src);
    ThirtyTwoBits(vw);
    hide Register, Bits, Pow2, IsSlice;
    for i := 0 to n
      invariant start == i * vw && bitsIn < 8 && start + bitsIn == 8 * pos && Register(src, buffer, bitsIn, start)
      invariant forall j | 0 <= j < i :: IsSlice(src, vw, j, dest[j])
      invariant forall j | i <= j < dest.Length :: dest[j] == old(dest[j])
    {
      SliceHere(src, vw, i, n, start, 0);
      pos, buffer, bitsIn := Refill(src, pos, buffer, bitsIn, vw, start);
      TakeBits(src, buffer, bitsIn, start, vw);
      bitsIn := bitsIn - vw;
      dest[i] := buffer / Pow2(bitsIn) % Pow2(vw);
      SliceHere(src, vw, i, n, start, dest[i]);
      start := start + vw;
    }
  }

  lemma TopByte(b: Bytes, start: nat, vw: nat)
    requires 8 <= vw && start + vw <= 8 * |b|
    ensures Bits(b, start, 8) == Bits(b, start, vw) / Pow2(vw - 8)
  {
    BitsConcat(b, start, 8, vw - 8);
    hide Bits;
    DivUnique(Bits(b, start, vw), Pow2(vw - 8), Bits(b, start, 8), Bits(b, start + 8, vw - 8));
  }

  lemma TakeTop(b: Bytes, buffer: nat, bitsIn: nat, start: nat, vw: nat)
    requires Register(b, buffer, bitsIn, start) && 8 <= vw <= bitsIn
    ensures buffer / Pow2(bitsIn - 8) % 0x100 == Bits(b, start, 8) < 0x100
    ensures Register(b, buffer, bitsIn - vw, start + vw)
  {
    Pow2Values();
    hide Bits, Pow2, Register;
    TakeBits(b, buffer, bitsIn, start, 8);
    TakeBits(b, buffer, bitsIn, start, vw);
  }

  /** Is `v` the i-th slice, shifted right by vw - 8? */
  predicate IsTopOfSlice(src: Bytes, vw: nat, i: nat, v: nat)
    requires vw >= 8
  {
    (i + 1) * vw == i * vw + vw <= 8 * |src| && v == Bits(src, i * vw, vw) / Pow2(vw - 8)
  }

  lemma TopHere(src: Bytes, vw: nat, i: nat, n: nat, start: nat, v: nat)
    requires start == i * vw && i < n && n * vw <= 8 * |src| && vw >= 8
    ensures start + vw == (i + 1) * vw <= 8 * |src|
    ensures v == Bits(src, start, 8) ==> IsTopOfSlice(src, vw, i, v)
  {
    MulMonotone(i, n, vw);
    MulMonotone(i + 1, n, vw);
    TopByte(src, start, vw);
  }

  /** convert_packed_to_8bit: the same slices, without their low bits. */
  method ConvertPackedTo8Bit(src: Bytes, dest: array<Byte>, vw: nat, n: nat)
    requires 8 <= vw <= 24 && n <= dest.Length && n * vw <= 8 * |src|
    modifies dest
    ensures forall i | 0 <= i < n :: IsTopOfSlice(src, vw, i, dest[i])
    ensures forall i | n <= i < dest.Length :: dest[i] == old(dest[i])
  {
    var buffer: nat, bitsIn: nat, pos: nat := 0, 0, 0;
    ghost var start: nat := 0;
    EmptyRegister(src);
    hide Register, Bits, Pow2, IsTopOfSlice;
    for i := 0 to n
      invariant start == i * vw && bitsIn < 8 && start + bitsIn == 8 * pos && Register(src, buffer, bitsIn, start)
      invariant forall j | 0 <= j < i :: IsTopOfSlice(src, vw, j, dest[j])
      invariant forall j | i <= j < dest.Length :: dest[j] == old(dest[j])
    {
      TopHere(src, vw, i, n, start, 0);
      pos, buffer, bitsIn := Refill(src, pos, buffer, bitsIn, vw, start);
      TakeTop(src, buffer, bitsIn, start, vw);
      bitsIn := bitsIn - vw;
      dest[i] := buffer / Pow2(bitsIn + vw - 8) % 0x100;
      TopHere(src, vw, i, n, start, dest[i]);
      start := start + vw;
    }
  }

  // ---------------------------------------------------------------- the unrolled unpacker

  /** The last bits and the first bits of a byte. */
  lemma LastBits(b: Bytes, c: nat, s: nat)
    requires s <= 8 && c < |b|
    ensures Bits(b, 8 * c + s, 8 - s) == b[c] % Pow2(8 - s)
  {
    ByteBits(b, c, s, 8 - s);
    assert Pow2(0) == 1;
  }

  lemma QuotientFits(x: nat, a: nat, c: nat)
    requires a > 0 && c > 0 && x < a * c
    ensures x / a < c && x / a % c == x / a
  {
    var q, r := x / a, x % a;
    assert x == q * a + r;
    if q >= c {
      assert q * a >= c * a by {
        assert q * a == c * a + (q - c) * a;
      }
    }
    assert q < c;
    DivUnique(q, c, 0, q);
  }

  lemma TopOfByte(x: Byte, k: nat)
    requires k <= 8
    ensures x / Pow2(k) % Pow2(8 - k) == x / Pow2(k)
  {
    Pow2Values();
    Pow2Sum(k, 8 - k);
    DivUnique(x, Pow2(k), x / Pow2(k), x % Pow2(k));
    QuotientFits(x, Pow2(k), Pow2(8 - k));
  }

  lemma FirstBits(b: Bytes, c: nat, n: nat)
    requires n <= 8 && c < |b|
    ensures Bits(b, 8 * c, n) == b[c] / Pow2(8 - n)
  {
    ByteBits(b, c, 0, n);
    TopOfByte(b[c], 8 - n);
  }

  /** Pixels that lie in two or three neighbouring bytes, `s` bits into the first. */
  lemma TwoBytes(b: Bytes, c: nat, s: nat)
    requires s <= 5 && c + 1 < |b|
    ensures Bits(b, 8 * c + s, 11)
         == b[c] % Pow2(8 - s) * Pow2(3 + s) + b[c + 1] / Pow2(5 - s)
  {
    hide Bits, Pow2;
    BitsConcat(b, 8 * c + s, 8 - s, 3 + s);
    LastBits(b, c, s);
    FirstBits(b, c + 1, 3 + s);
  }

  lemma ThreeBytes(b: Bytes, c: nat, s: nat)
    requires 6 <= s <= 7 && c + 2 < |b|
    ensures Bits(b, 8 * c + s, 11)
         == (b[c] % Pow2(8 - s) * 0x100 + b[c + 1]) * Pow2(s - 5) + b[c + 2] / Pow2(13 - s)
  {
    hide Bits, Pow2;
    BitsConcat(b, 8 * c + s, (8 - s) + 8, s - 5);
    NextByte(b, 8 * c + s, 8 - s);
    LastBits(b, c, s);
    FirstBits(b, c + 2, s - 5);
  }

  /** unpack_8_pixels: the disjoint bit fields are added up instead of or-ed. */
  function Unpacked(r: Bytes, k: nat): nat
    requires |r| >= 11 && k < 8
  {
    match k
    case 0 => r[0] as int * 8 + r[1] as int / 32
    case 1 => (r[1] as int * 64 + r[2] as int / 4) % 2048
    case 2 => (r[2] as int * 512 + r[3] as int * 2 + r[4] as int / 128) % 2048
    case 3 => (r[4] as int * 16 + r[5] as int / 16) % 2048
    case 4 => (r[5] as int * 128 + r[6] as int / 2) % 2048
    case 5 => (r[6] as int * 1024 + r[7] as int * 4 + r[8] as int / 64) % 2048
    case 6 => (r[8] as int * 32 + r[9] as int / 8) % 2048
    case _ => (r[9] as int * 256 + r[10] as int) % 2048
  }

  /** Masking drops the bits of the first byte that belong to the pixel before. */
  lemma Masked(x: nat, low: nat, scale: nat, rest: nat)
    requires low > 0 && scale > 0 && low * scale == 2048 && rest < scale
    ensures (x * scale + rest) % 2048 == x % low * scale + rest
  {
    var q, r := x / low, x % low;
    assert x == q * low + r;
    assert x * scale + rest == q * 2048 + (r * scale + rest) by {
      assert (q * low + r) * scale == q * (low * scale) + r * scale;
    }
    RemainderFits(r, rest, scale, low);
    DivUnique(x * scale + rest, 2048, q, r * scale + rest);
  }

  lemma SmallPowers()
    ensures Pow2(0) == 1 && Pow2(1) == 2 && Pow2(2) == 4 && Pow2(3) == 8 && Pow2(4) == 16
    ensures Pow2(5) == 32 && Pow2(6) == 64 && Pow2(7) == 128 && Pow2(8) == 256
  {
    assert Pow2(2) == 4;
    assert Pow2(4) == 16;
    assert Pow2(6) == 64;
  }

  lemma PixelOfTwo(r: Bytes, c: nat, s: nat, low: nat, scale: nat, shift: nat)
    requires s <= 5 && c + 1 < |r| && low == Pow2(8 - s) && scale == Pow2(3 + s) && shift == Pow2(5 - s)
    requires low * scale == 2048 && scale * shift == 0x100
    ensures Bits(r, 8 * c + s, 11) == (r[c] * scale + r[c + 1] / shift) % 2048
  {
    hide Bits, Pow2;
    TwoBytes(r, c, s);
    assert shift * scale == scale * shift;
    QuotientFits(r[c + 1], shift, scale);
    Masked(r[c], low, scale, r[c + 1] / shift);
  }

  lemma PixelOfThree(r: Bytes, c: nat, s: nat, low: nat, scale: nat, shift: nat)
    requires 6 <= s <= 7 && c + 2 < |r| && low == Pow2(8 - s) && scale == Pow2(s - 5) && shift == Pow2(13 - s)
    requires low * scale == 8 && scale * shift == 0x100
    ensures Bits(r, 8 * c + s, 11) == (r[c] * (0x100 * scale) + r[c + 1] * scale + r[c + 2] / shift) % 2048
  {
    hide Bits, Pow2;
    ThreeBytes(r, c, s);
    assert shift * scale == scale * shift && low * (0x100 * scale) == 2048;
    QuotientFits(r[c + 2], shift, scale);
    var rest := r[c + 1] * scale + r[c + 2] / shift;
    RemainderFits(r[c + 1], r[c + 2] / shift, scale, 0x100);
    Masked(r[c], low, 0x100 * scale, rest);
    assert (r[c] % low * 0x100 + r[c + 1]) * scale == r[c] % low * (0x100 * scale) + r[c + 1] * scale;
  }

  lemma PixelsOfThree(r: Bytes)
    requires |r| >= 11
    ensures Unpacked(r, 2) == Bits(r, 22, 11) && Unpacked(r, 5) == Bits(r, 55, 11)
  {
    SmallPowers();
    hide Bits, Pow2;
    PixelOfThree(r, 2, 6, 4, 2, 128);
    PixelOfThree(r, 6, 7, 2, 4, 64);
  }

  lemma FirstPixels(r: Bytes)
    requires |r| >= 11
    ensures Unpacked(r, 0) == Bits(r, 0, 11) && Unpacked(r, 1) == Bits(r, 11, 11) && Unpacked(r, 3) == Bits(r, 33, 11)
  {
    SmallPowers();
    hide Bits, Pow2;
    PixelOfTwo(r, 0, 0, 256, 8, 32);
    PixelOfTwo(r, 1, 3, 32, 64, 4);
    PixelOfTwo(r, 4, 1, 128, 16, 16);
    assert r[0] as int * 8 + r[1] as int / 32 < 2048;
  }

  lemma LastPixels(r: Bytes)
    requires |r| >= 11
    ensures Unpacked(r, 4) == Bits(r, 44, 11) && Unpacked(r, 6) == Bits(r, 66, 11) && Unpacked(r, 7) == Bits(r, 77, 11)
  {
    SmallPowers();
    hide Bits, Pow2;
    PixelOfTwo(r, 5, 4, 16, 128, 2);
    PixelOfTwo(r, 8, 2, 64, 32, 8);
    PixelOfTwo(r, 9, 5, 8, 256, 1);
  }

  /** The unrolled formulas yield the slices of 11 bits. */
  lemma UnpackedIsBits(r: Bytes, k: nat)
    requires |r| >= 11 && k < 8
    ensures Unpacked(r, k) == Bits(r, 11 * k, 11)
  {
    hide Bits, Unpacked;
    FirstPixels(r);
    PixelsOfThree(r);
    LastPixels(r);
  }

  /** The bits of a stream from some byte on. */
  lemma {:induction false} BitsFrom(b: Bytes, c: nat, start: nat, n: nat)
    requires c <= |b| && 8 * c + start + n <= 8 * |b|
    ensures Bits(b[c..], start, n) == Bits(b, 8 * c + start, n)
    decreases n
  {
    if n == 0 {
    } else {
      BitsFrom(b, c, start, n - 1);
      var j := start + n - 1;
      assert (8 * c + j) / 8 == c + j / 8 && (8 * c + j) % 8 == j % 8;
    }
  }

  lemma BitsBound(b: Bytes, start: nat)
    requires start + 11 <= 8 * |b|
    ensures Bits(b, start, 11) < 2048
  {
    Pow2Values();
  }

  method Unpack8Pixels(raw: Bytes, group: nat, frame: array<Pixel16>)
    requires 11 * group + 11 <= |raw| && 8 * group + 8 <= frame.Length
    modifies frame
    ensures forall i | 8 * group <= i < 8 * group + 8 :: frame[i] == Bits(raw, 11 * i, 11)
    ensures forall i | 0 <= i < frame.Length && !(8 * group <= i < 8 * group + 8) :: frame[i] == old(frame[i])
  {
    hide Bits, Pow2, Unpacked;
    var r := raw[11 * group..];
    for k := 0 to 8
      invariant forall i | 8 * group <= i < 8 * group + k :: frame[i] == Bits(raw, 11 * i, 11)
      invariant forall i | 0 <= i < frame.Length && !(8 * group <= i < 8 * group + k) :: frame[i] == old(frame[i])
    {
      UnpackedIsBits(r, k);
      BitsFrom(raw, 11 * group, 11 * k, 11);
      assert 8 * (11 * group) + 11 * k == 11 * (8 * group + k);
      BitsBound(raw, 11 * (8 * group + k));
      frame[8 * group + k] := Unpacked(r, k);
    }
  }

  /** convert_packed11_to_16bit: the same as the generic one with 11 bits, if n is a multiple
      of 8; a remainder is left out. */
  method ConvertPacked11To16Bit(raw: Bytes, frame: array<Pixel16>, n: nat)
    requires n <= frame.Length && n / 8 * 11 <= |raw|
    modifies frame
    ensures forall i | 0 <= i < n - n % 8 :: 11 * (i + 1) <= 8 * |raw| && frame[i] == Bits(raw, 11 * i, 11)
    ensures forall i | n - n % 8 <= i < frame.Length :: frame[i] == old(frame[i])
  {
    hide Bits, Pow2;
    var left, group := n, 0;
    while left >= 8
      invariant left + 8 * group == n && 0 <= group <= n / 8
      invariant forall i | 0 <= i < 8 * group :: 11 * (i + 1) <= 8 * |raw| && frame[i] == Bits(raw, 11 * i, 11)
      invariant forall i | 8 * group <= i < frame.Length :: frame[i] == old(frame[i])
    {
      Unpack8Pixels(raw, group, frame);
      left := left - 8;
      group := group + 1;
    }
  }

  /** The value of the i-th pixel of a packed frame. */
  function RawPixel(input: Bytes, i: nat): (v: nat)
    requires 11 * (i + 1) <= 8 * |input|
    ensures v < 2048
  {
    BitsBound(input, 11 * i);
    Bits(input, 11 * i, 11)
  }

  /** Eight pixels at a time, as the depth conversions unpack them. */
  method UnpackGroup(input: Bytes, group: nat) returns (unpack: seq<nat>)
    requires 11 * group + 11 <= |input|
    ensures |unpack| == 8 && forall k | 0 <= k < 8 :: unpack[k] == RawPixel(input, 8 * group + k)
  {
    hide Bits, Unpacked;
    var r := input[11 * group..];
    unpack := seq(8, k requires 0 <= k < 8 => Unpacked(r, k));
    forall k: nat | k < 8 ensures unpack[k] == RawPixel(input, 8 * group + k) {
      UnpackedIsBits(r, k);
      BitsFrom(input, 11 * group, 11 * k, 11);
      assert 8 * (11 * group) + 11 * k == 11 * (8 * group + k);
    }
  }
}
