/** registration.c: depth pixels are moved to where the colour camera sees them, the nearest one
    winning; and colours are moved back to the depth pixels that see them. */
module Registration {
  import opened Basics
  import opened Unpackers

  const X_RES := 640
  const Y_RES := 480
  const PIXELS := 307200
  const NO_MM_VALUE := 0
  const MAX_METRIC_VALUE := 10000
  const REG_X_VAL_SCALE := 256

  type Depth = d: int | 0 <= d < 0x1_0000

  datatype Tables = Tables(registration: seq<(I32, I32)>, depthToRgbShift: seq<I32>, rawToMm: seq<Depth>,
                           startLines: U16)

  predicate TablesOk(t: Tables) {
    |t.registration| == PIXELS && |t.depthToRgbShift| == MAX_METRIC_VALUE && |t.rawToMm| == 2048
  }

  // ---------------------------------------------------------------- where a pixel goes

  /** Division as C does it, and the conversion to uint32_t. */
  function Truncated(a: int, b: nat): int
    requires b > 0
  {
    if a >= 0 then a / b else -(-a / b)
  }

  function Unsigned(a: int): nat {
    a % 0x1_0000_0000
  }

  function NewX(t: Tables, i: nat, depth: nat): nat
    requires TablesOk(t) && i < PIXELS && depth < MAX_METRIC_VALUE
  {
    Unsigned(Truncated(t.registration[i].0 as int + t.depthToRgbShift[depth] as int, REG_X_VAL_SCALE))
  }

  /** What becomes of a pixel: nothing, or its depth competes for a target, or its depth is
      looked up behind the end of the shift table. */
  datatype Fate = Dropped | Kept(target: nat, depth: Depth) | OutOfTable

  /** A pixel of freenect_apply_registration. */
  function Registered(t: Tables, i: nat, depth: Depth): Fate
    requires TablesOk(t) && i < PIXELS
  {
    if depth == NO_MM_VALUE || depth >= MAX_METRIC_VALUE then Dropped
    else
      var nx := NewX(t, i, depth);
      if nx >= X_RES then Dropped
      else Kept(Unsigned(Unsigned(t.registration[i].1) * X_RES + nx - Y_RES * t.startLines), depth)
  }

  /** A pixel of freenect_map_rgb_to_depth, which does not compare the depth with the length of
      the table. */
  function Mapped(t: Tables, i: nat, depth: Depth): Fate
    requires TablesOk(t) && i < PIXELS
  {
    if depth == NO_MM_VALUE then Dropped
    else if depth >= |t.depthToRgbShift| then OutOfTable
    else
      var cx := NewX(t, i, depth);
      if cx >= X_RES then Dropped
      else Kept(Unsigned(Unsigned(t.registration[i].1 - t.startLines * Y_RES) * X_RES + cx), depth)
  }

  // ---------------------------------------------------------------- where that is

  /** The column in which a pixel is seen: its table entry and the shift of its depth are in 256ths
      of a column.  What is less than a column to the left of the image counts for the first one. */
  predicate Column(x: int, shift: int, nx: nat) {
    nx < 640 && if x + shift >= 0 then 256 * nx <= x + shift < 256 * nx + 256 else nx == 0 && x + shift > -256
  }

  /** A pixel whose depth is placed in the colour camera's image. */
  ghost predicate RegistersAt(t: Tables, i: nat, depth: Depth, target: nat)
    requires TablesOk(t) && i < PIXELS
  {
    && 0 < depth < MAX_METRIC_VALUE
    && exists nx: nat | Column(t.registration[i].0, t.depthToRgbShift[depth], nx) ::
         target == (640 * t.registration[i].1 + nx - 480 * t.startLines) % 0x1_0000_0000
  }

  /** A pixel that is given a colour.  Here the start lines count whole lines of the target. */
  ghost predicate MapsAt(t: Tables, i: nat, depth: Depth, target: nat)
    requires TablesOk(t) && i < PIXELS
  {
    && 0 < depth < MAX_METRIC_VALUE
    && exists nx: nat | Column(t.registration[i].0, t.depthToRgbShift[depth], nx) ::
         target == (640 * (t.registration[i].1 - 480 * t.startLines) + nx) % 0x1_0000_0000
  }

  /** What is seen more than a column to the left of the image, or to the right of it, has none. */
  lemma SeenIff(x: int, shift: int)
    ensures (exists nx: nat :: Column(x, shift, nx)) <==> -256 < x + shift < 640 * 256
  {
    if -256 < x + shift < 640 * 256 {
      assert Column(x, shift, if x + shift >= 0 then (x + shift) / 256 else 0);
    }
  }

  lemma ColumnIsNewX(t: Tables, i: nat, depth: Depth, nx: nat)
    requires TablesOk(t) && i < PIXELS && depth < MAX_METRIC_VALUE
    ensures Column(t.registration[i].0, t.depthToRgbShift[depth], nx) <==> nx == NewX(t, i, depth) < X_RES
  {
  }

  lemma WrapMultiple(a: int, k: int)
    ensures (a + k * 0x1_0000_0000) % 0x1_0000_0000 == a % 0x1_0000_0000
  {
  }

  lemma WrapRow(y: int, nx: nat, offset: int)
    ensures Unsigned(Unsigned(y) * X_RES + nx - offset) == (640 * y + nx - offset) % 0x1_0000_0000
  {
    assert Unsigned(y) == y - y / 0x1_0000_0000 * 0x1_0000_0000;
    assert Unsigned(y) * X_RES + nx - offset
        == (640 * y + nx - offset) + (-640 * (y / 0x1_0000_0000)) * 0x1_0000_0000;
    WrapMultiple(640 * y + nx - offset, -640 * (y / 0x1_0000_0000));
  }

  lemma RegisteredIff(t: Tables, i: nat, depth: Depth, target: nat)
    requires TablesOk(t) && i < PIXELS
    ensures Registered(t, i, depth) == Kept(target, depth) <==> RegistersAt(t, i, depth, target)
    ensures Registered(t, i, depth).Kept? ==> Registered(t, i, depth).depth == depth
    ensures !Registered(t, i, depth).OutOfTable?
  {
    if 0 < depth < MAX_METRIC_VALUE {
      var nx := NewX(t, i, depth);
      ColumnIsNewX(t, i, depth, nx);
      forall n: nat | Column(t.registration[i].0, t.depthToRgbShift[depth], n) ensures n == nx {
        ColumnIsNewX(t, i, depth, n);
      }
      WrapRow(t.registration[i].1, nx, 480 * t.startLines);
      hide NewX, Column, Unsigned;
    }
  }

  lemma MappedIff(t: Tables, i: nat, depth: Depth, target: nat)
    requires TablesOk(t) && i < PIXELS
    ensures Mapped(t, i, depth) == Kept(target, depth) <==> MapsAt(t, i, depth, target)
    ensures Mapped(t, i, depth).OutOfTable? <==> depth >= MAX_METRIC_VALUE
    ensures Mapped(t, i, depth).Kept? ==> Mapped(t, i, depth).depth == depth
  {
    if 0 < depth < MAX_METRIC_VALUE {
      var nx := NewX(t, i, depth);
      ColumnIsNewX(t, i, depth, nx);
      forall n: nat | Column(t.registration[i].0, t.depthToRgbShift[depth], n) ensures n == nx {
        ColumnIsNewX(t, i, depth, n);
      }
      WrapRow(t.registration[i].1 - 480 * t.startLines, nx, 0);
      hide NewX, Column, Unsigned;
    }
  }

  /** 306720 is 32 times an odd number, so a multiple of 2^32 needs a multiple of 2^27. */
  lemma OddFactor(lines: U16, k: int)
    requires 306720 * lines == k * 0x1_0000_0000
    ensures lines == 0
  {
    assert 9585 * lines == k * 0x800_0000;
  }

  lemma ShiftedApart(a: int, lines: U16)
    ensures (a - 480 * lines) % 0x1_0000_0000 == (a - 307200 * lines) % 0x1_0000_0000 <==> lines == 0
  {
    var p, q := a - 480 * lines, a - 307200 * lines;
    if p % 0x1_0000_0000 == q % 0x1_0000_0000 {
      var k := p / 0x1_0000_0000 - q / 0x1_0000_0000;
      assert p - q == 306720 * lines == k * 0x1_0000_0000;
      OddFactor(lines, k);
    }
  }

  /** Both functions agree about a pixel's place exactly if there are no start lines. */
  lemma SamePlaceIff(t: Tables, i: nat, depth: Depth, target: nat, place: nat)
    requires TablesOk(t) && i < PIXELS && RegistersAt(t, i, depth, target) && MapsAt(t, i, depth, place)
    ensures target == place <==> t.startLines == 0
  {
    var nx: nat :| Column(t.registration[i].0, t.depthToRgbShift[depth], nx)
                   && target == (640 * t.registration[i].1 + nx - 480 * t.startLines) % 0x1_0000_0000;
    var n: nat :| Column(t.registration[i].0, t.depthToRgbShift[depth], n)
                  && place == (640 * (t.registration[i].1 - 480 * t.startLines) + n) % 0x1_0000_0000;
    assert n == nx;
    ShiftedApart(640 * t.registration[i].1 + nx, t.startLines);
  }

  /** A pixel for which nothing is read or written outside the tables and the image. */
  predicate Safe(f: Fate) {
    match f
    case Dropped => true
    case Kept(target, depth) => target < PIXELS && 0 < depth < MAX_METRIC_VALUE
    case OutOfTable => false
  }

  predicate InRange(fates: seq<Fate>) {
    forall f | f in fates :: Safe(f)
  }

  lemma AllSafe(fates: seq<Fate>)
    ensures InRange(fates) <==> forall i: nat | i < |fates| :: Safe(fates[i])
  {
    hide Safe;
    if InRange(fates) {
      forall i: nat | i < |fates| ensures Safe(fates[i]) {
        assert fates[i] in fates;
      }
    }
  }

  // ---------------------------------------------------------------- the nearest one wins

  predicate Hits(f: Fate, target: nat) {
    f.Kept? && f.target == target
  }

  /** What the comparison in the loops leaves at a target. */
  function Least(fates: seq<Fate>, target: nat): Depth {
    if fates == [] then NO_MM_VALUE
    else
      var least, f := Least(fates[..|fates| - 1], target), fates[|fates| - 1];
      if Hits(f, target) && (least == NO_MM_VALUE || least > f.depth) then f.depth else least
  }

  lemma LeastSnoc(fates: seq<Fate>, n: nat, target: nat)
    requires n < |fates|
    ensures Least(fates[..n + 1], target)
         == (var least := Least(fates[..n], target);
             if Hits(fates[n], target) && (least == NO_MM_VALUE || least > fates[n].depth) then fates[n].depth
             else least)
  {
    assert fates[..n + 1][..n] == fates[..n];
  }

  ghost predicate SomeHit(fates: seq<Fate>, target: nat, depth: nat) {
    exists f :: f in fates && Hits(f, target) && f.depth == depth
  }

  /** It is the minimum of the depths that were mapped there, or 0 if there were none. */
  lemma {:induction false} LeastIsMinimum(fates: seq<Fate>, target: nat)
    requires InRange(fates)
    ensures
      var least := Least(fates, target);
      && (least == NO_MM_VALUE <==> forall f | f in fates :: !Hits(f, target))
      && (least != NO_MM_VALUE ==> SomeHit(fates, target, least))
      && (forall f | f in fates && Hits(f, target) :: least <= f.depth)
    decreases |fates|
  {
    if fates == [] {
    } else {
      var init, last := fates[..|fates| - 1], fates[|fates| - 1];
      assert fates == init + [last];
      assert forall f :: f in fates <==> f in init || f == last;
      LeastIsMinimum(init, target);
      if Least(init, target) != NO_MM_VALUE {
        var f :| f in init && Hits(f, target) && f.depth == Least(init, target);
      }
    }
  }

  /** The depths in metres of a packed frame, and what becomes of the pixels. */
  function MetricDepth(t: Tables, input: Bytes, i: nat): Depth
    requires TablesOk(t) && i < PIXELS && |input| >= PIXELS / 8 * 11
  {
    t.rawToMm[RawPixel(input, i)]
  }

  function RegisteredFates(t: Tables, input: Bytes): (f: seq<Fate>)
    requires TablesOk(t) && |input| >= PIXELS / 8 * 11
    ensures |f| == PIXELS
  {
    seq(PIXELS, i requires 0 <= i < PIXELS => Registered(t, i, MetricDepth(t, input, i)))
  }

  /** The depths that the shift table covers. */
  predicate MetricDepths(depth: seq<Depth>) {
    |depth| == PIXELS && forall i | 0 <= i < |depth| :: depth[i] < MAX_METRIC_VALUE
  }

  function MappedFates(t: Tables, depth: seq<Depth>): (f: seq<Fate>)
    requires TablesOk(t) && |depth| == PIXELS
    ensures |f| == PIXELS
  {
    seq(PIXELS, i requires 0 <= i < PIXELS => Mapped(t, i, depth[i]))
  }

  ghost predicate Nearest(out: seq<Depth>, fates: seq<Fate>, n: nat)
    requires n <= |fates|
  {
    |out| == PIXELS && forall target: nat | target < PIXELS :: out[target] == Least(fates[..n], target)
  }

  lemma NearestStart(out: seq<Depth>, fates: seq<Fate>)
    requires |out| == PIXELS && forall i | 0 <= i < PIXELS :: out[i] == NO_MM_VALUE
    ensures Nearest(out, fates, 0)
  {
  }

  /** One more pixel. */
  lemma NearestStep(out: seq<Depth>, fates: seq<Fate>, n: nat)
    requires n < |fates| && Safe(fates[n]) && Nearest(out, fates, n)
    ensures !fates[n].Kept? ==> Nearest(out, fates, n + 1)
    ensures fates[n].Kept? ==>
              var target, depth := fates[n].target, fates[n].depth;
              && target < PIXELS
              && (if out[target] == NO_MM_VALUE || out[target] > depth then Nearest(out[target := depth], fates, n + 1)
                  else Nearest(out, fates, n + 1))
  {
    forall target: nat | target < PIXELS
      ensures Least(fates[..n + 1], target)
           == (var least := Least(fates[..n], target);
               if Hits(fates[n], target) && (least == NO_MM_VALUE || least > fates[n].depth) then fates[n].depth
               else least)
    {
      LeastSnoc(fates, n, target);
    }
  }

  // ---------------------------------------------------------------- depth to colour camera

  /** No pixel is placed outside the image. */
  ghost predicate RegistersInImage(t: Tables, input: Bytes)
    requires TablesOk(t) && |input| >= PIXELS / 8 * 11
  {
    forall i: nat, target: nat | i < PIXELS && RegistersAt(t, i, MetricDepth(t, input, i), target) :: target < PIXELS
  }

  /** The least of the depths that are placed at a target, or 0 if there are none. */
  ghost predicate NearestAt(t: Tables, input: Bytes, target: nat, depth: Depth)
    requires TablesOk(t) && |input| >= PIXELS / 8 * 11
  {
    && (depth == NO_MM_VALUE <==>
        forall i: nat | i < PIXELS :: !RegistersAt(t, i, MetricDepth(t, input, i), target))
    && (depth != NO_MM_VALUE ==>
        exists i: nat | i < PIXELS :: RegistersAt(t, i, MetricDepth(t, input, i), target)
                                      && MetricDepth(t, input, i) == depth)
    && (forall i: nat | i < PIXELS && RegistersAt(t, i, MetricDepth(t, input, i), target) ::
          depth <= MetricDepth(t, input, i))
  }

  lemma HitsIffRegisters(t: Tables, input: Bytes, i: nat, target: nat)
    requires TablesOk(t) && |input| >= PIXELS / 8 * 11 && i < PIXELS
    ensures
      var f, depth := RegisteredFates(t, input)[i], MetricDepth(t, input, i);
      && (Hits(f, target) <==> RegistersAt(t, i, depth, target))
      && (Hits(f, target) ==> f.depth == depth)
      && (Safe(f) <==> forall at: nat | RegistersAt(t, i, depth, at) :: at < PIXELS)
  {
    var f, depth := RegisteredFates(t, input)[i], MetricDepth(t, input, i);
    RegisteredIff(t, i, depth, target);
    forall at: nat ensures f == Kept(at, depth) <==> RegistersAt(t, i, depth, at) {
      RegisteredIff(t, i, depth, at);
    }
    if f.Kept? {
      assert RegistersAt(t, i, depth, f.target);
    }
    hide Registered, RegistersAt, MetricDepth;
  }

  lemma RegisteredInRange(t: Tables, input: Bytes)
    requires TablesOk(t) && |input| >= PIXELS / 8 * 11
    ensures InRange(RegisteredFates(t, input)) <==> RegistersInImage(t, input)
  {
    AllSafe(RegisteredFates(t, input));
    forall i: nat | i < PIXELS
      ensures Safe(RegisteredFates(t, input)[i])
         <==> forall at: nat | RegistersAt(t, i, MetricDepth(t, input, i), at) :: at < PIXELS
    {
      HitsIffRegisters(t, input, i, 0);
    }
    hide InRange, Safe, RegistersAt, MetricDepth, RegisteredFates;
  }

  lemma LeastIsNearest(t: Tables, input: Bytes, target: nat)
    requires TablesOk(t) && |input| >= PIXELS / 8 * 11 && InRange(RegisteredFates(t, input))
    ensures NearestAt(t, input, target, Least(RegisteredFates(t, input), target))
  {
    var fates := RegisteredFates(t, input);
    LeastIsMinimum(fates, target);
    forall i: nat | i < PIXELS
      ensures fates[i] in fates
      ensures Hits(fates[i], target) <==> RegistersAt(t, i, MetricDepth(t, input, i), target)
      ensures Hits(fates[i], target) ==> fates[i].depth == MetricDepth(t, input, i)
    {
      HitsIffRegisters(t, input, i, target);
    }
    hide InRange, Least, Hits, RegistersAt, MetricDepth, RegisteredFates;
    assert forall f :: f in fates <==> exists i: nat | i < PIXELS :: fates[i] == f;
  }

  /** The test and the store for one pixel. */
  method Place(f: Fate, out: array<Depth>, ghost fates: seq<Fate>, ghost n: nat)
    requires n < |fates| && fates[n] == f && Safe(f) && out.Length == PIXELS && Nearest(out[..], fates, n)
    modifies out
    ensures Nearest(out[..], fates, n + 1)
  {
    NearestStep(out[..], fates, n);
    hide Nearest, Least, Hits;
    if f.Kept? {
      var current := out[f.target];
      if current == NO_MM_VALUE || current > f.depth {
        ghost var before := out[..];
        out[f.target] := f.depth;
        assert out[..] == before[f.target := f.depth];
      }
    }
  }

  ghost predicate Unpacking(input: Bytes, unpack: seq<nat>, sourceIndex: nat, group: nat, n: nat) {
    && |input| >= PIXELS / 8 * 11 && 8 * group + sourceIndex == n + 8 && sourceIndex <= 8 && n <= PIXELS
    && group <= PIXELS / 8
    && (group > 0 ==> |unpack| == 8)
    && (group > 0 ==> forall k | 0 <= k < 8 :: unpack[k] == RawPixel(input, 8 * (group - 1) + k))
  }

  /** The unpacked group that holds the next pixel. */
  method NextPixel(input: Bytes, unpack: seq<nat>, sourceIndex: nat, group: nat, ghost n: nat)
    returns (value: nat, unpack': seq<nat>, sourceIndex': nat, group': nat)
    requires n < PIXELS && |input| >= PIXELS / 8 * 11 && Unpacking(input, unpack, sourceIndex, group, n)
    ensures Unpacking(input, unpack', sourceIndex', group', n + 1) && value == RawPixel(input, n)
  {
    hide RawPixel;
    unpack', sourceIndex', group' := unpack, sourceIndex, group;
    if sourceIndex' == 8 {
      unpack' := UnpackGroup(input, group);
      sourceIndex' := 0;
      group' := group + 1;
    }
    value := unpack'[sourceIndex'];
    sourceIndex' := sourceIndex' + 1;
  }

  lemma UnpackingStart(input: Bytes)
    requires |input| >= PIXELS / 8 * 11
    ensures Unpacking(input, [], 8, 0, 0)
  {
  }

  ghost predicate SafeUpTo(fates: seq<Fate>, n: nat) {
    n <= |fates| && forall i: nat | i < n :: Safe(fates[i])
  }

  lemma SafeFromStart(fates: seq<Fate>)
    ensures SafeUpTo(fates, 0)
  {
  }

  lemma SafeNext(fates: seq<Fate>, n: nat)
    requires SafeUpTo(fates, n) && n < |fates|
    ensures Safe(fates[n]) ==> SafeUpTo(fates, n + 1)
    ensures !Safe(fates[n]) ==> !InRange(fates)
  {
    hide Safe;
    AllSafe(fates);
  }

  lemma SafeToEnd(fates: seq<Fate>)
    requires SafeUpTo(fates, |fates|)
    ensures InRange(fates)
  {
    hide Safe;
    AllSafe(fates);
  }

  lemma FateOf(t: Tables, input: Bytes, i: nat)
    requires TablesOk(t) && i < PIXELS && |input| >= PIXELS / 8 * 11
    ensures RawPixel(input, i) < |t.rawToMm|
    ensures RegisteredFates(t, input)[i] == Registered(t, i, t.rawToMm[RawPixel(input, i)])
  {
  }

  lemma NearestAll(out: seq<Depth>, fates: seq<Fate>)
    requires |fates| == PIXELS && Nearest(out, fates, PIXELS)
    ensures forall target: nat | target < PIXELS :: out[target] == Least(fates, target)
  {
    assert fates[..PIXELS] == fates;
  }

  method Wipe(out: array<Depth>)
    modifies out
    ensures forall i | 0 <= i < out.Length :: out[i] == NO_MM_VALUE
  {
    for i := 0 to out.Length
      invariant forall j | 0 <= j < i :: out[j] == NO_MM_VALUE
    {
      out[i] := NO_MM_VALUE;
    }
  }

  /** freenect_apply_registration: at every target, the nearest of the depths that are placed
      there. It ends, with `ok` false, where it would write outside the image. */
  method ApplyRegistration(t: Tables, input: Bytes, out: array<Depth>) returns (ok: bool)
    requires TablesOk(t) && |input| >= PIXELS / 8 * 11 && out.Length == PIXELS
    modifies out
    ensures ok <==> RegistersInImage(t, input)
    ensures ok ==> forall target: nat | target < PIXELS :: NearestAt(t, input, target, out[target])
  {
    ghost var fates := RegisteredFates(t, input);
    SafeFromStart(fates);
    RegisteredInRange(t, input);
    hide TablesOk, InRange, RegisteredFates, Least, RawPixel, Registered, Safe, SafeUpTo, Unpacking;
    hide RegistersInImage, NearestAt;
    Wipe(out);
    NearestStart(out[..], fates);
    var unpack: seq<nat>, sourceIndex: nat, group: nat := [], 8, 0;
    UnpackingStart(input);
    hide Nearest;
    for y := 0 to Y_RES
      invariant Nearest(out[..], fates, y * X_RES) && Unpacking(input, unpack, sourceIndex, group, y * X_RES)
      invariant SafeUpTo(fates, y * X_RES)
    {
      for x := 0 to X_RES
        invariant Nearest(out[..], fates, y * X_RES + x) && Unpacking(input, unpack, sourceIndex, group, y * X_RES + x)
        invariant SafeUpTo(fates, y * X_RES + x)
      {
        var i: nat := y * X_RES + x;
        var value;
        value, unpack, sourceIndex, group := NextPixel(input, unpack, sourceIndex, group, i);
        FateOf(t, input, i);
        SafeNext(fates, i);
        var fate := Registered(t, i, t.rawToMm[value]);
        if !Safe(fate) {
          return false;
        }
        Place(fate, out, fates, i);
      }
    }
    NearestAll(out[..], fates);
    SafeToEnd(fates);
    forall target: nat | target < PIXELS ensures NearestAt(t, input, target, out[target]) {
      LeastIsNearest(t, input, target);
    }
    ok := true;
  }

  function Clamped(depth: Depth): Depth {
    if depth < MAX_METRIC_VALUE then depth else MAX_METRIC_VALUE
  }

  /** The image that freenect_apply_depth_to_mm makes of a packed frame. */
  function MetricImage(t: Tables, input: Bytes): (mm: seq<Depth>)
    requires TablesOk(t) && |input| >= PIXELS / 8 * 11
    ensures |mm| == PIXELS
  {
    seq(PIXELS, i requires 0 <= i < PIXELS => Clamped(MetricDepth(t, input, i)))
  }

  /** freenect_apply_depth_to_mm: the same unpacking without the mapping. */
  method ApplyDepthToMm(t: Tables, input: Bytes, out: array<Depth>)
    requires TablesOk(t) && |input| >= PIXELS / 8 * 11 && out.Length == PIXELS
    modifies out
    ensures out[..] == MetricImage(t, input)
    ensures forall i: nat | i < PIXELS ::
              && out[i] <= 10000 && out[i] <= MetricDepth(t, input, i)
              && (out[i] == 10000 || out[i] == MetricDepth(t, input, i))
  {
    hide RawPixel;
    var unpack: seq<nat>, sourceIndex: nat, group: nat := [], 8, 0;
    for y := 0 to Y_RES
      invariant Unpacking(input, unpack, sourceIndex, group, y * X_RES)
      invariant forall i | 0 <= i < y * X_RES :: out[i] == Clamped(MetricDepth(t, input, i))
    {
      for x := 0 to X_RES
        invariant Unpacking(input, unpack, sourceIndex, group, y * X_RES + x)
        invariant forall i | 0 <= i < y * X_RES + x :: out[i] == Clamped(MetricDepth(t, input, i))
      {
        var value;
        value, unpack, sourceIndex, group := NextPixel(input, unpack, sourceIndex, group, y * X_RES + x);
        var metricDepth := t.rawToMm[value];
        out[y * X_RES + x] := if metricDepth < MAX_METRIC_VALUE then metricDepth else MAX_METRIC_VALUE;
      }
    }
  }

  predicate AllNear(t: Tables, input: Bytes)
    requires TablesOk(t) && |input| >= PIXELS / 8 * 11
  {
    forall i: nat | i < PIXELS :: MetricDepth(t, input, i) < MAX_METRIC_VALUE
  }

  /** Its pixels are covered by the shift table exactly if no pixel of the frame is as far as
      the maximum. */
  lemma MetricImageInTable(t: Tables, input: Bytes)
    requires TablesOk(t) && |input| >= PIXELS / 8 * 11
    ensures MetricDepths(MetricImage(t, input)) <==> AllNear(t, input)
  {
    hide MetricDepth;
    var mm := MetricImage(t, input);
    forall i: nat | i < PIXELS
      ensures mm[i] < MAX_METRIC_VALUE <==> MetricDepth(t, input, i) < MAX_METRIC_VALUE
    {
    }
  }

  /** A packed frame whose first pixel has a given raw value. */
  function FrameWith(raw: nat): (input: Bytes)
    requires raw < 2048
    ensures |input| == PIXELS / 8 * 11
  {
    [raw / 8, raw % 8 * 32] + seq(PIXELS / 8 * 11 - 2, i => 0)
  }

  lemma FirstPixelOf(raw: nat)
    requires raw < 2048
    ensures RawPixel(FrameWith(raw), 0) == raw
  {
    var input := FrameWith(raw);
    UnpackedIsBits(input, 0);
    hide Bits;
  }

  /** Any entry of the millimetre table from the maximum on is enough for a frame whose image
      holds the maximum, and without such an entry there is none. */
  lemma FarFrames(t: Tables)
    requires TablesOk(t)
    ensures (exists raw: nat | raw < 2048 :: t.rawToMm[raw] >= MAX_METRIC_VALUE)
       <==> exists input: Bytes | |input| == PIXELS / 8 * 11 :: !MetricDepths(MetricImage(t, input))
  {
    hide RawPixel, FrameWith, MetricImage, MetricDepths;
    if raw: nat :| raw < 2048 && t.rawToMm[raw] >= MAX_METRIC_VALUE {
      var input := FrameWith(raw);
      FirstPixelOf(raw);
      MetricImageInTable(t, input);
      assert MetricDepth(t, input, 0) >= MAX_METRIC_VALUE;
      assert !MetricDepths(MetricImage(t, input));
    }
    if input: Bytes :| |input| == PIXELS / 8 * 11 && !MetricDepths(MetricImage(t, input)) {
      MetricImageInTable(t, input);
      var i: nat :| i < PIXELS && MetricDepth(t, input, i) >= MAX_METRIC_VALUE;
      assert t.rawToMm[RawPixel(input, i)] >= MAX_METRIC_VALUE;
    }
  }

  // ---------------------------------------------------------------- colour to depth camera

  /** A pixel passes the occlusion test exactly if it is at the least depth of all pixels that
      are mapped to the same place. */
  lemma PassesIffNearest(fates: seq<Fate>, i: nat)
    requires InRange(fates) && i < |fates| && fates[i].Kept?
    ensures fates[i].depth <= Least(fates, fates[i].target)
       <==> forall f | f in fates && Hits(f, fates[i].target) :: fates[i].depth <= f.depth
  {
    var target := fates[i].target;
    LeastIsMinimum(fates, target);
    assert fates[i] in fates && Hits(fates[i], target);
    if forall f | f in fates && Hits(f, target) :: fates[i].depth <= f.depth {
      var f :| f in fates && Hits(f, target) && f.depth == Least(fates, target);
    }
  }

  function Triple(b: Bytes, i: nat): (t: Bytes)
    requires 3 * i + 3 <= |b|
    ensures |t| == 3
  {
    b[3 * i..3 * i + 3]
  }

  /** Black without depth or out of bounds; the colour seen at its place if it is in front;
      left untouched if it is occluded, or if its place is not known. */
  function Colour(fates: seq<Fate>, raw: Bytes, before: Bytes, i: nat): Bytes
    requires |fates| == PIXELS && |raw| == |before| == 3 * PIXELS && InRange(fates) && i < PIXELS
  {
    match fates[i]
    case Dropped => [0, 0, 0]
    case OutOfTable => Triple(before, i)
    case Kept(target, depth) =>
      assert fates[i] in fates;
      if depth <= Least(fates, target) then Triple(raw, target) else Triple(before, i)
  }

  /** What the first pass stores for a pixel. */
  function MapEntry(f: Fate): int {
    if f.Kept? then f.target else -1
  }

  /** A pixel that the first loop has gone past. */
  predicate Looked(fates: seq<Fate>, depthMm: seq<Depth>, entry: int, i: nat)
    requires |fates| == |depthMm| == PIXELS && i < PIXELS
  {
    && Safe(fates[i]) && entry == MapEntry(fates[i])
    && (fates[i].Kept? ==> depthMm[i] == fates[i].depth)
  }

  lemma LookedAll(fates: seq<Fate>, depthMm: seq<Depth>, targets: seq<int>)
    requires |fates| == |depthMm| == |targets| == PIXELS
    requires forall i: nat | i < PIXELS :: Looked(fates, depthMm, targets[i], i)
    ensures InRange(fates)
  {
    forall i: nat | i < PIXELS ensures Safe(fates[i]) {
      assert Looked(fates, depthMm, targets[i], i);
    }
    AllSafe(fates);
  }

  lemma MappedAt(t: Tables, depthMm: seq<Depth>, i: nat)
    requires TablesOk(t) && |depthMm| == PIXELS && i < PIXELS
    ensures MappedFates(t, depthMm)[i] == Mapped(t, i, depthMm[i])
    ensures Mapped(t, i, depthMm[i]).Kept? ==> Mapped(t, i, depthMm[i]).depth == depthMm[i]
  {
  }

  /** The first loop. It ends, with `ok` false, where it would read behind the shift table or
      write outside the z-buffer. */
  method FirstPass(t: Tables, depthMm: seq<Depth>, targets: array<int>, zBuffer: array<Depth>) returns (ok: bool)
    requires TablesOk(t) && |depthMm| == PIXELS
    requires targets.Length == PIXELS && zBuffer.Length == PIXELS
    modifies targets, zBuffer
    ensures ok <==> InRange(MappedFates(t, depthMm))
    ensures ok ==> forall i: nat | i < PIXELS :: Looked(MappedFates(t, depthMm), depthMm, targets[i], i)
    ensures ok ==> forall target: nat | target < PIXELS :: zBuffer[target] == Least(MappedFates(t, depthMm), target)
  {
    ghost var fates := MappedFates(t, depthMm);
    AllSafe(fates);
    hide InRange, Least, Mapped, MappedFates, Safe;
    Wipe(zBuffer);
    NearestStart(zBuffer[..], fates);
    hide Nearest;
    for y := 0 to Y_RES
      invariant Nearest(zBuffer[..], fates, y * X_RES)
      invariant forall i: nat | i < y * X_RES :: Looked(fates, depthMm, targets[i], i)
    {
      for x := 0 to X_RES
        invariant Nearest(zBuffer[..], fates, y * X_RES + x)
        invariant forall i: nat | i < y * X_RES + x :: Looked(fates, depthMm, targets[i], i)
      {
        var i: nat := y * X_RES + x;
        var fate := Mapped(t, i, depthMm[i]);
        MappedAt(t, depthMm, i);
        if !Safe(fate) {
          return false;
        }
        targets[i] := MapEntry(fate);
        Place(fate, zBuffer, fates, i);
      }
    }
    NearestAll(zBuffer[..], fates);
    LookedAll(fates, depthMm, targets[..]);
    ok := true;
  }

  /** The place in the colour image, if there is one, is inside of it. */
  ghost predicate PlaceInImage(t: Tables, i: nat, depth: Depth)
    requires TablesOk(t) && i < PIXELS
  {
    forall target: nat | MapsAt(t, i, depth, target) :: target < PIXELS
  }

  lemma SafeIff(t: Tables, i: nat, depth: Depth)
    requires TablesOk(t) && i < PIXELS
    ensures Safe(Mapped(t, i, depth)) <==> depth < MAX_METRIC_VALUE && PlaceInImage(t, i, depth)
  {
    var f := Mapped(t, i, depth);
    forall at: nat ensures f == Kept(at, depth) <==> MapsAt(t, i, depth, at) {
      MappedIff(t, i, depth, at);
    }
    MappedIff(t, i, depth, 0);
    if f.Kept? {
      assert MapsAt(t, i, depth, f.target) && 0 < depth < MAX_METRIC_VALUE;
    }
    hide Mapped, MapsAt;
  }

  ghost predicate PlacesInImage(t: Tables, depthMm: seq<Depth>)
    requires TablesOk(t) && |depthMm| == PIXELS
  {
    forall i: nat | i < PIXELS :: PlaceInImage(t, i, depthMm[i])
  }

  /** What the first loop needs: depths inside the shift table, places inside the image. */
  lemma MappedInRange(t: Tables, depthMm: seq<Depth>)
    requires TablesOk(t) && |depthMm| == PIXELS
    ensures InRange(MappedFates(t, depthMm)) <==> MetricDepths(depthMm) && PlacesInImage(t, depthMm)
  {
    var fates := MappedFates(t, depthMm);
    AllSafe(fates);
    forall i: nat | i < PIXELS
      ensures Safe(fates[i]) <==> depthMm[i] < MAX_METRIC_VALUE && PlaceInImage(t, i, depthMm[i])
    {
      SafeIff(t, i, depthMm[i]);
    }
    hide InRange, Safe, MappedFates, PlaceInImage;
  }

  /** The first `n` pixels are done, the others are as before. */
  ghost predicate Painted(fates: seq<Fate>, raw: Bytes, before: Bytes, now: Bytes, n: nat)
    requires |fates| == PIXELS && |raw| == |before| == 3 * PIXELS && InRange(fates)
  {
    && n <= PIXELS && |now| == 3 * PIXELS
    && (forall i: nat | i < n :: Triple(now, i) == Colour(fates, raw, before, i))
    && (forall i: nat | n <= i < PIXELS :: Triple(now, i) == Triple(before, i))
  }

  method StoreTriple(a: array<Byte>, i: nat, t: Bytes)
    requires |t| == 3 && 3 * i + 3 <= a.Length
    modifies a
    ensures Triple(a[..], i) == t
    ensures forall j: nat | j != i && 3 * j + 3 <= a.Length :: Triple(a[..], j) == Triple(old(a[..]), j)
  {
    a[3 * i] := t[0];
    a[3 * i + 1] := t[1];
    a[3 * i + 2] := t[2];
  }

  method Paint(ghost fates: seq<Fate>, depthMm: seq<Depth>, rgbRaw: Bytes, rgbRegistered: array<Byte>,
               targets: array<int>, zBuffer: array<Depth>, index: nat, ghost before: Bytes)
    requires |fates| == |depthMm| == PIXELS && InRange(fates) && index < PIXELS
    requires |rgbRaw| == |before| == rgbRegistered.Length == 3 * PIXELS
    requires targets.Length == PIXELS && zBuffer.Length == PIXELS
    requires Looked(fates, depthMm, targets[index], index)
    requires forall target: nat | target < PIXELS :: zBuffer[target] == Least(fates, target)
    requires Painted(fates, rgbRaw, before, rgbRegistered[..], index)
    modifies rgbRegistered
    ensures Painted(fates, rgbRaw, before, rgbRegistered[..], index + 1)
  {
    assert fates[index] in fates;
    var cindex := targets[index];
    if cindex == -1 {
      StoreTriple(rgbRegistered, index, [0, 0, 0]);
    } else {
      var currentDepth := depthMm[index];
      var minDepth := zBuffer[cindex];
      if currentDepth <= minDepth {
        StoreTriple(rgbRegistered, index, Triple(rgbRaw, cindex));
      }
    }
  }

  method SecondPass(ghost fates: seq<Fate>, depthMm: seq<Depth>, rgbRaw: Bytes, rgbRegistered: array<Byte>,
                    targets: array<int>, zBuffer: array<Depth>)
    requires |fates| == |depthMm| == PIXELS && InRange(fates)
    requires |rgbRaw| == rgbRegistered.Length == 3 * PIXELS
    requires targets.Length == PIXELS && zBuffer.Length == PIXELS
    requires forall i: nat | i < PIXELS :: Looked(fates, depthMm, targets[i], i)
    requires forall target: nat | target < PIXELS :: zBuffer[target] == Least(fates, target)
    modifies rgbRegistered
    ensures forall i: nat | i < PIXELS ::
              Triple(rgbRegistered[..], i) == Colour(fates, rgbRaw, old(rgbRegistered[..]), i)
  {
    hide InRange, Least;
    for y := 0 to Y_RES
      invariant Painted(fates, rgbRaw, old(rgbRegistered[..]), rgbRegistered[..], y * X_RES)
    {
      for x := 0 to X_RES
        invariant Painted(fates, rgbRaw, old(rgbRegistered[..]), rgbRegistered[..], y * X_RES + x)
      {
        Paint(fates, depthMm, rgbRaw, rgbRegistered, targets, zBuffer, y * X_RES + x, old(rgbRegistered[..]));
      }
    }
  }

  /** Of all pixels that are mapped to a place, none is nearer. */
  ghost predicate InFront(t: Tables, depthMm: seq<Depth>, i: nat, target: nat)
    requires TablesOk(t) && |depthMm| == PIXELS && i < PIXELS
  {
    forall j: nat | j < PIXELS && MapsAt(t, j, depthMm[j], target) :: depthMm[i] <= depthMm[j]
  }

  /** Black if it has no depth or is mapped nowhere, the colour of its place if it is in front
      there, and otherwise what was there before. */
  ghost predicate ColouredAs(t: Tables, depthMm: seq<Depth>, raw: Bytes, before: Bytes, i: nat, now: Bytes)
    requires TablesOk(t) && |depthMm| == PIXELS && i < PIXELS && |raw| == |before| == 3 * PIXELS
  {
    && ((forall target: nat :: !MapsAt(t, i, depthMm[i], target)) ==> now == [0, 0, 0])
    && (forall target: nat | MapsAt(t, i, depthMm[i], target) ::
          && target < PIXELS
          && now == if InFront(t, depthMm, i, target) then Triple(raw, target) else Triple(before, i))
  }

  lemma InFrontIff(t: Tables, depthMm: seq<Depth>, i: nat)
    requires TablesOk(t) && |depthMm| == PIXELS && i < PIXELS && InRange(MappedFates(t, depthMm))
    ensures
      var fates := MappedFates(t, depthMm);
      fates[i].Kept? ==>
        && fates[i].depth == depthMm[i]
        && (depthMm[i] <= Least(fates, fates[i].target) <==> InFront(t, depthMm, i, fates[i].target))
  {
    var fates := MappedFates(t, depthMm);
    if fates[i].Kept? {
      var target := fates[i].target;
      PassesIffNearest(fates, i);
      forall j: nat | j < PIXELS
        ensures fates[j] in fates
        ensures Hits(fates[j], target) <==> MapsAt(t, j, depthMm[j], target)
        ensures fates[j].Kept? ==> fates[j].depth == depthMm[j]
      {
        MappedIff(t, j, depthMm[j], target);
      }
      hide InRange, Least, Hits, MapsAt, Mapped, MappedFates;
      assert forall f :: f in fates <==> exists j: nat | j < PIXELS :: fates[j] == f;
    }
  }

  lemma ColourIs(t: Tables, depthMm: seq<Depth>, raw: Bytes, before: Bytes, i: nat)
    requires TablesOk(t) && |depthMm| == PIXELS && i < PIXELS && |raw| == |before| == 3 * PIXELS
    requires InRange(MappedFates(t, depthMm))
    ensures ColouredAs(t, depthMm, raw, before, i, Colour(MappedFates(t, depthMm), raw, before, i))
  {
    var f := MappedFates(t, depthMm)[i];
    assert f in MappedFates(t, depthMm);
    assert f == Mapped(t, i, depthMm[i]);
    forall at: nat ensures f == Kept(at, depthMm[i]) <==> MapsAt(t, i, depthMm[i], at) {
      MappedIff(t, i, depthMm[i], at);
    }
    MappedIff(t, i, depthMm[i], 0);
    InFrontIff(t, depthMm, i);
    if f.Kept? {
      assert MapsAt(t, i, depthMm[i], f.target);
    }
    hide Mapped, MapsAt, MappedFates, Least, InFront, Triple;
  }

  /** freenect_map_rgb_to_depth: every depth pixel gets its colour, or black, or, if another
      one is in front of it, nothing; exactly if no depth is behind the end of the shift table
      and no place outside the image. */
  method MapRgbToDepth(t: Tables, depthMm: seq<Depth>, rgbRaw: Bytes, rgbRegistered: array<Byte>) returns (ok: bool)
    requires TablesOk(t) && |depthMm| == PIXELS
    requires |rgbRaw| == rgbRegistered.Length == 3 * PIXELS
    modifies rgbRegistered
    ensures ok <==> MetricDepths(depthMm) && PlacesInImage(t, depthMm)
    ensures ok ==> forall i: nat | i < PIXELS ::
              ColouredAs(t, depthMm, rgbRaw, old(rgbRegistered[..]), i, rgbRegistered[3 * i..3 * i + 3])
    ensures !ok ==> rgbRegistered[..] == old(rgbRegistered[..])
  {
    hide InRange, Least, Colour, MetricDepths, PlacesInImage, ColouredAs, Safe, Looked;
    var targets := new int[PIXELS];
    var zBuffer := new Depth[PIXELS];
    ok := FirstPass(t, depthMm, targets, zBuffer);
    MappedInRange(t, depthMm);
    if ok {
      SecondPass(MappedFates(t, depthMm), depthMm, rgbRaw, rgbRegistered, targets, zBuffer);
      forall i: nat | i < PIXELS
        ensures ColouredAs(t, depthMm, rgbRaw, old(rgbRegistered[..]), i, rgbRegistered[3 * i..3 * i + 3])
      {
        ColourIs(t, depthMm, rgbRaw, old(rgbRegistered[..]), i);
        assert rgbRegistered[3 * i..3 * i + 3] == Triple(rgbRegistered[..], i);
      }
    }
  }

  /** The two in a row, as the app calls them: the colours arrive exactly if every pixel of the
      packed frame is nearer than the maximum and seen inside the image. */
  method MapRgbToFrame(t: Tables, input: Bytes, rgbRaw: Bytes, mm: array<Depth>, rgbRegistered: array<Byte>)
    returns (ok: bool)
    requires TablesOk(t) && |input| >= PIXELS / 8 * 11 && mm.Length == PIXELS
    requires |rgbRaw| == rgbRegistered.Length == 3 * PIXELS
    modifies mm, rgbRegistered
    ensures mm[..] == MetricImage(t, input)
    ensures ok <==> AllNear(t, input) && PlacesInImage(t, MetricImage(t, input))
    ensures ok ==> forall i: nat | i < PIXELS ::
              ColouredAs(t, MetricImage(t, input), rgbRaw, old(rgbRegistered[..]), i, rgbRegistered[3 * i..3 * i + 3])
    ensures !ok ==> rgbRegistered[..] == old(rgbRegistered[..])
  {
    hide InRange, MappedFates, MetricImage, MetricDepths, PlacesInImage, ColouredAs, AllNear;
    ApplyDepthToMm(t, input, mm);
    MetricImageInTable(t, input);
    ok := MapRgbToDepth(t, mm[..], rgbRaw, rgbRegistered);
  }
}
