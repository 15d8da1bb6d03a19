/**
  Model of the dynamic-range normaliser `convert_to_8bit_3channel`
  (src/dlutils/MedSigLip/preprocess.py).

  An image is a decoded array of integer intensities.  Each channel is
  rescaled on its own from [min, max] to [0, 255] with a truncating cast,
  a constant channel becomes black, and the result always has three
  channels: a grayscale or single-channel image is replicated, a
  three-channel image keeps its channel order, anything else fails.
*/
module Preprocess {
  import opened Results

  /** One channel of an image, indexed [row][column]. */
  type Plane = seq<seq<int>>

  /** A multi-channel image, indexed [row][column][channel]. */
  type Pixels = seq<seq<seq<int>>>

  /** The decoded input array, distinguished by its number of dimensions. */
  datatype Source =
    | Gray(plane: Plane)       // ndim == 2: H x W
    | Multi(pixels: Pixels)    // ndim == 3: H x W x C
    | OtherRank(ndim: nat)     // any other ndim; its pixels play no part

  /** The two ways the conversion fails. */
  datatype ConvertError =
    | UnsupportedDimensions(ndim: nat)  // the explicit `ValueError`
    | RgbArrayUnbound                   // `UnboundLocalError`: C is neither 1 nor 3

  /** `p` is an h x w plane. */
  predicate IsPlane(p: Plane, h: nat, w: nat) {
    |p| == h && forall y :: 0 <= y < h ==> |p[y]| == w
  }

  /** `a` is an h x w x c image. */
  predicate IsPixels(a: Pixels, h: nat, w: nat, c: nat) {
    && |a| == h
    && forall y :: 0 <= y < h ==>
         |a[y]| == w && forall x :: 0 <= x < w ==> |a[y][x]| == c
  }

  /** A rectangular plane with at least one pixel (numpy's min and max need one). */
  predicate NonEmptyPlane(p: Plane) {
    |p| > 0 && |p[0]| > 0 && IsPlane(p, |p|, |p[0]|)
  }

  /** Every value of `p` is an 8-bit intensity. */
  predicate IsBytePlane(p: Plane) {
    forall y, x :: 0 <= y < |p| && 0 <= x < |p[y]| ==> 0 <= p[y][x] <= 255
  }

  /** Every value of `a` is an 8-bit intensity. */
  predicate IsByteImage(a: Pixels) {
    forall y, x, k :: 0 <= y < |a| && 0 <= x < |a[y]| && 0 <= k < |a[y][x]| ==> 0 <= a[y][x][k] <= 255
  }

  function ChannelCount(a: Pixels): nat {
    if |a| > 0 && |a[0]| > 0 then |a[0][0]| else 0
  }

  /** What the source accepts: a rectangular, non-empty array, or a rank other than 2 and 3. */
  predicate ValidSource(s: Source) {
    match s
    case Gray(p) => NonEmptyPlane(p)
    case Multi(a) => |a| > 0 && |a[0]| > 0 && IsPixels(a, |a|, |a[0]|, |a[0][0]|)
    case OtherRank(n) => n != 2 && n != 3
  }

  function Height(s: Source): nat {
    match s
    case Gray(p) => |p|
    case Multi(a) => |a|
    case OtherRank(_) => 0
  }

  function Width(s: Source): nat {
    match s
    case Gray(p) => if |p| > 0 then |p[0]| else 0
    case Multi(a) => if |a| > 0 then |a[0]| else 0
    case OtherRank(_) => 0
  }

  /** `m` is the least value of `p`: it occurs in `p` and no pixel is below it. */
  predicate IsLeast(m: int, p: Plane) {
    && (exists y, x :: 0 <= y < |p| && 0 <= x < |p[y]| && p[y][x] == m)
    && forall y, x :: 0 <= y < |p| && 0 <= x < |p[y]| ==> m <= p[y][x]
  }

  /** `m` is the greatest value of `p`: it occurs in `p` and no pixel is above it. */
  predicate IsGreatest(m: int, p: Plane) {
    && (exists y, x :: 0 <= y < |p| && 0 <= x < |p[y]| && p[y][x] == m)
    && forall y, x :: 0 <= y < |p| && 0 <= x < |p[y]| ==> p[y][x] <= m
  }

  function RowMin(r: seq<int>): (m: int)
    requires |r| > 0
    ensures exists i :: 0 <= i < |r| && r[i] == m
    ensures forall i :: 0 <= i < |r| ==> m <= r[i]
  {
    if |r| == 1 then r[0]
    else
      var rest := RowMin(r[1..]);
      if r[0] <= rest then r[0] else rest
  }

  function RowMax(r: seq<int>): (m: int)
    requires |r| > 0
    ensures exists i :: 0 <= i < |r| && r[i] == m
    ensures forall i :: 0 <= i < |r| ==> r[i] <= m
  {
    if |r| == 1 then r[0]
    else
      var rest := RowMax(r[1..]);
      if r[0] >= rest then r[0] else rest
  }

  /** `channel.min()`: the least intensity of a non-empty plane. */
  function PlaneMin(p: Plane): (m: int)
    requires |p| > 0 && forall y :: 0 <= y < |p| ==> |p[y]| > 0
    ensures IsLeast(m, p)
  {
    var here := RowMin(p[0]);
    if |p| == 1 then here
    else
      var rest := PlaneMin(p[1..]);
      assert forall y, x :: 1 <= y < |p| && 0 <= x < |p[y]| ==> p[y][x] == p[1..][y - 1][x];
      if here <= rest then here else rest
  }

  /** `channel.max()`: the greatest intensity of a non-empty plane. */
  function PlaneMax(p: Plane): (m: int)
    requires |p| > 0 && forall y :: 0 <= y < |p| ==> |p[y]| > 0
    ensures IsGreatest(m, p)
  {
    var here := RowMax(p[0]);
    if |p| == 1 then here
    else
      var rest := PlaneMax(p[1..]);
      assert forall y, x :: 1 <= y < |p| && 0 <= x < |p[y]| ==> p[y][x] == p[1..][y - 1][x];
      if here >= rest then here else rest
  }

  /** r is the floor of n / d for a positive d: r * d <= n < (r + 1) * d. */
  predicate IsFloorQuotient(r: int, n: int, d: int) {
    r * d <= n < (r + 1) * d
  }

  /**
    `((v - lo) * 255.0 / (hi - lo)).astype(np.uint8)` for an integer pixel
    `v` of a channel whose range is [lo, hi].  The operand is never
    negative, so the truncating cast is the floor of the exact quotient,
    which is Dafny's `/` on a non-negative dividend.  This holds while
    hi - lo < 2^45 and pixel values are below 2^53 (every PIL integer mode);
    beyond that the float64 quotient can round up past the floor.
  */
  function Rescale(v: int, lo: int, hi: int): (r: int)
    requires lo <= v <= hi && lo < hi
    ensures 0 <= r <= 255
    ensures IsFloorQuotient(r, (v - lo) * 255, hi - lo)
  {
    var q := (v - lo) * 255 / (hi - lo);
    CancelRight(q, 255, hi - lo);
    q
  }

  /** Cancelling a positive factor on the right of `<=`. */
  lemma CancelRight(x: int, y: int, d: int)
    requires 0 < d && x * d <= y * d
    ensures x <= y
  {
  }

  /** Cancelling a positive factor on the right of `<`. */
  lemma CancelRightStrict(x: int, y: int, d: int)
    requires 0 < d && x * d < y * d
    ensures x < y
  {
  }

  /** A row whose pixels lie in [lo, hi], each rescaled onto [0, 255]. */
  function RescaleRow(row: seq<int>, lo: int, hi: int): (r: seq<int>)
    requires lo < hi && forall x :: 0 <= x < |row| ==> lo <= row[x] <= hi
    ensures |r| == |row|
    ensures forall x :: 0 <= x < |row| ==> r[x] == Rescale(row[x], lo, hi)
  {
    if |row| == 0 then [] else [Rescale(row[0], lo, hi)] + RescaleRow(row[1..], lo, hi)
  }

  /** Every row of a plane whose pixels lie in [lo, hi], rescaled onto [0, 255]. */
  function RescaleRows(p: Plane, lo: int, hi: int): (q: Plane)
    requires lo < hi
    requires forall y, x :: 0 <= y < |p| && 0 <= x < |p[y]| ==> lo <= p[y][x] <= hi
    ensures |q| == |p|
    ensures forall y :: 0 <= y < |p| ==> q[y] == RescaleRow(p[y], lo, hi)
  {
    if |p| == 0 then []
    else
      assert forall y, x :: 0 <= y < |p| - 1 && 0 <= x < |p[1..][y]| ==> p[1..][y][x] == p[y + 1][x];
      [RescaleRow(p[0], lo, hi)] + RescaleRows(p[1..], lo, hi)
  }

  /** A black row of n pixels. */
  function ZeroRow(n: nat): (r: seq<int>)
    ensures |r| == n && forall x :: 0 <= x < n ==> r[x] == 0
  {
    if n == 0 then [] else [0] + ZeroRow(n - 1)
  }

  /** A black plane of the shape of p. */
  function ZeroRows(p: Plane): (q: Plane)
    ensures |q| == |p|
    ensures forall y :: 0 <= y < |p| ==> q[y] == ZeroRow(|p[y]|)
  {
    if |p| == 0 then [] else [ZeroRow(|p[0]|)] + ZeroRows(p[1..])
  }

  /** Normalises one channel: rescale by its own min and max, or all zeros when it is constant. */
  function NormalizePlane(p: Plane): (q: Plane)
    requires NonEmptyPlane(p)
    ensures IsPlane(q, |p|, |p[0]|)
    ensures IsBytePlane(q)
  {
    var lo := PlaneMin(p);
    var hi := PlaneMax(p);
    if hi > lo then RescaleRows(p, lo, hi) else ZeroRows(p)
  }

  /** `img_array[:, :, k]`: channel k of an image. */
  function Channel(a: Pixels, k: nat): (p: Plane)
    requires forall y, x :: 0 <= y < |a| && 0 <= x < |a[y]| ==> k < |a[y][x]|
    ensures |p| == |a|
    ensures forall y :: 0 <= y < |a| ==> |p[y]| == |a[y]|
    ensures forall y, x :: 0 <= y < |a| && 0 <= x < |a[y]| ==> p[y][x] == a[y][x][k]
  {
    seq(|a|, y requires 0 <= y < |a| =>
      seq(|a[y]|, x requires 0 <= x < |a[y]| => a[y][x][k]))
  }

  /** Every plane is h x w. */
  predicate Shaped(planes: seq<Plane>, h: nat, w: nat) {
    && (forall k :: 0 <= k < |planes| ==> |planes[k]| == h)
    && (forall k, y :: 0 <= k < |planes| && 0 <= y < h ==> |planes[k][y]| == w)
  }

  /** `np.stack(planes, axis=-1)` for equally shaped planes. */
  function Stack(planes: seq<Plane>, h: nat, w: nat): (a: Pixels)
    requires Shaped(planes, h, w)
    ensures IsPixels(a, h, w, |planes|)
    ensures forall y, x, k :: 0 <= y < h && 0 <= x < w && 0 <= k < |planes| ==> a[y][x][k] == planes[k][y][x]
  {
    seq(h, y requires 0 <= y < h =>
      seq(w, x requires 0 <= x < w =>
        seq(|planes|, k requires 0 <= k < |planes| => planes[k][y][x])))
  }

  /** Every value of every plane is an 8-bit intensity. */
  predicate AllBytes(planes: seq<Plane>) {
    forall k :: 0 <= k < |planes| ==> IsBytePlane(planes[k])
  }

  /** The loop of the multi-channel branch: every channel normalised on its own. */
  function NormalizeChannels(a: Pixels): (planes: seq<Plane>)
    requires |a| > 0 && |a[0]| > 0 && IsPixels(a, |a|, |a[0]|, |a[0][0]|)
    ensures |planes| == |a[0][0]|
    ensures Shaped(planes, |a|, |a[0]|)
    ensures AllBytes(planes)
  {
    seq(|a[0][0]|, k requires 0 <= k < |a[0][0]| => NormalizePlane(Channel(a, k)))
  }

  /** Stacking 8-bit planes gives an 8-bit image. */
  lemma StackOfBytes(planes: seq<Plane>, h: nat, w: nat)
    requires Shaped(planes, h, w)
    requires AllBytes(planes)
    ensures IsByteImage(Stack(planes, h, w))
  {
  }

  /** An 8-bit plane replicated into three identical channels. */
  function Replicate(n: Plane, h: nat, w: nat): (a: Pixels)
    requires IsPlane(n, h, w) && IsBytePlane(n)
    ensures IsPixels(a, h, w, 3) && IsByteImage(a)
  {
    StackOfBytes([n, n, n], h, w);
    Stack([n, n, n], h, w)
  }

  /** `convert_to_8bit_3channel`, with the PIL decoding and re-encoding left out. */
  function Convert(s: Source): (r: Result<Pixels, ConvertError>)
    requires ValidSource(s)
    ensures r.Failure? <==> (s.OtherRank? || (s.Multi? && ChannelCount(s.pixels) != 1 && ChannelCount(s.pixels) != 3))
    ensures s.OtherRank? ==> r == Failure(UnsupportedDimensions(s.ndim))
    ensures s.Multi? && r.Failure? ==> r.error == RgbArrayUnbound
    ensures r.Success? ==> IsPixels(r.value, Height(s), Width(s), 3) && IsByteImage(r.value)
  {
    match s
    case Gray(p) =>
      Success(Replicate(NormalizePlane(p), |p|, |p[0]|))
    case Multi(a) =>
      var channels := NormalizeChannels(a);
      if |channels| == 1 then
        Success(Replicate(channels[0], |a|, |a[0]|))
      else if |channels| == 3 then
        StackOfBytes(channels[..3], |a|, |a[0]|);
        Success(Stack(channels[..3], |a|, |a[0]|))
      else Failure(RgbArrayUnbound)
    case OtherRank(n) =>
      Failure(UnsupportedDimensions(n))
  }

  /* ---------------------------------------------------------------
     Arithmetic of a single rescaled value
     --------------------------------------------------------------- */

  /** Flooring division by a positive number is monotone in the dividend. */
  lemma DivMonotone(a: int, b: int, d: int)
    requires 0 <= a <= b && 0 < d
    ensures a / d <= b / d
  {
    assert b < (b / d + 1) * d;
    CancelRightStrict(a / d, b / d + 1, d);
  }

  /** The bottom of the range maps to 0 and the top to 255. */
  lemma RescaleEndpoints(lo: int, hi: int)
    requires lo < hi
    ensures Rescale(lo, lo, hi) == 0
    ensures Rescale(hi, lo, hi) == 255
  {
    var r := Rescale(hi, lo, hi);
    CancelRightStrict(254, r, hi - lo);
  }

  /** A larger intensity never rescales to a smaller byte. */
  lemma RescaleMonotone(v: int, u: int, lo: int, hi: int)
    requires lo <= v <= u <= hi && lo < hi
    ensures Rescale(v, lo, hi) <= Rescale(u, lo, hi)
  {
    assert (v - lo) * 255 <= (u - lo) * 255;
    DivMonotone((v - lo) * 255, (u - lo) * 255, hi - lo);
  }

  /** On the full 8-bit range the rescale is the identity. */
  lemma RescaleFullRange(v: int)
    requires 0 <= v <= 255
    ensures Rescale(v, 0, 255) == v
  {
    var r := Rescale(v, 0, 255);
    CancelRight(r, v, 255);
    CancelRightStrict(v, r + 1, 255);
  }

  /* ---------------------------------------------------------------
     One channel
     --------------------------------------------------------------- */

  /** The least value of a plane is unique, so it is what `PlaneMin` finds. */
  lemma LeastIsPlaneMin(m: int, p: Plane)
    requires |p| > 0 && forall y :: 0 <= y < |p| ==> |p[y]| > 0
    requires IsLeast(m, p)
    ensures m == PlaneMin(p)
  {
    var m' := PlaneMin(p);
    var y, x :| 0 <= y < |p| && 0 <= x < |p[y]| && p[y][x] == m;
    var y', x' :| 0 <= y' < |p| && 0 <= x' < |p[y']| && p[y'][x'] == m';
  }

  /** The greatest value of a plane is unique, so it is what `PlaneMax` finds. */
  lemma GreatestIsPlaneMax(m: int, p: Plane)
    requires |p| > 0 && forall y :: 0 <= y < |p| ==> |p[y]| > 0
    requires IsGreatest(m, p)
    ensures m == PlaneMax(p)
  {
    var m' := PlaneMax(p);
    var y, x :| 0 <= y < |p| && 0 <= x < |p[y]| && p[y][x] == m;
    var y', x' :| 0 <= y' < |p| && 0 <= x' < |p[y']| && p[y'][x'] == m';
  }

  /** Two planes of one shape with equal pixels are equal. */
  lemma PlaneExtensional(p: Plane, q: Plane)
    requires |p| == |q|
    requires forall y :: 0 <= y < |p| ==> |p[y]| == |q[y]|
    requires forall y, x :: 0 <= y < |p| && 0 <= x < |p[y]| ==> p[y][x] == q[y][x]
    ensures p == q
  {
    assert forall y :: 0 <= y < |p| ==> p[y] == q[y];
  }

  /**
    In a channel whose least value lo is below its greatest value hi,
    every output byte v is the floor of (p - lo) * 255 / (hi - lo):
    v * (hi - lo) <= (p - lo) * 255 < (v + 1) * (hi - lo).
  */
  lemma NormalizedPixelIsFloor(p: Plane, lo: int, hi: int, y: nat, x: nat)
    requires NonEmptyPlane(p) && IsLeast(lo, p) && IsGreatest(hi, p) && lo < hi
    requires y < |p| && x < |p[y]|
    ensures var v := NormalizePlane(p)[y][x];
      0 <= v <= 255 && IsFloorQuotient(v, (p[y][x] - lo) * 255, hi - lo)
  {
    assert NormalizePlane(p)[y][x] == Rescale(p[y][x], lo, hi) by {
      LeastIsPlaneMin(lo, p);
      GreatestIsPlaneMax(hi, p);
      NormalizedPixel(p, y, x);
    }
  }

  /** The pixel of a non-constant channel, as computed by the rescale. */
  lemma NormalizedPixel(p: Plane, y: nat, x: nat)
    requires NonEmptyPlane(p) && PlaneMin(p) < PlaneMax(p)
    requires y < |p| && x < |p[y]|
    ensures NormalizePlane(p)[y][x] == Rescale(p[y][x], PlaneMin(p), PlaneMax(p))
  {
  }

  /**
    A non-constant channel is stretched over the whole byte range: its
    minimum pixels become 0, its maximum pixels become 255, and so the
    output's own least and greatest values are 0 and 255.
  */
  lemma NormalizeStretches(p: Plane, lo: int, hi: int)
    requires NonEmptyPlane(p) && IsLeast(lo, p) && IsGreatest(hi, p) && lo < hi
    ensures var q := NormalizePlane(p);
      && (forall y, x :: 0 <= y < |p| && 0 <= x < |p[y]| && p[y][x] == lo ==> q[y][x] == 0)
      && (forall y, x :: 0 <= y < |p| && 0 <= x < |p[y]| && p[y][x] == hi ==> q[y][x] == 255)
      && IsLeast(0, q) && IsGreatest(255, q)
  {
    LeastIsPlaneMin(lo, p);
    GreatestIsPlaneMax(hi, p);
    RescaleEndpoints(lo, hi);
    var q := NormalizePlane(p);
    var y0, x0 :| 0 <= y0 < |p| && 0 <= x0 < |p[y0]| && p[y0][x0] == lo;
    var y1, x1 :| 0 <= y1 < |p| && 0 <= x1 < |p[y1]| && p[y1][x1] == hi;
    assert q[y0][x0] == 0;
    assert q[y1][x1] == 255;
  }

  /** A channel maps to all zeros exactly when it is constant. */
  lemma NormalizeZeroIffConstant(p: Plane)
    requires NonEmptyPlane(p)
    ensures var q := NormalizePlane(p);
      (forall y, x :: 0 <= y < |q| && 0 <= x < |q[y]| ==> q[y][x] == 0)
      <==> (forall y, x :: 0 <= y < |p| && 0 <= x < |p[y]| ==> p[y][x] == p[0][0])
  {
    var lo, hi := PlaneMin(p), PlaneMax(p);
    if lo < hi {
      NormalizeStretches(p, lo, hi);
      var y1, x1 :| 0 <= y1 < |p| && 0 <= x1 < |p[y1]| && p[y1][x1] == hi;
      assert NormalizePlane(p)[y1][x1] == 255;
      assert p[0][0] >= lo;
    }
  }

  /** Within one channel the rescale preserves the order of intensities. */
  lemma NormalizeMonotone(p: Plane, y: nat, x: nat, y': nat, x': nat)
    requires NonEmptyPlane(p)
    requires y < |p| && x < |p[y]| && y' < |p| && x' < |p[y']|
    requires p[y][x] <= p[y'][x']
    ensures NormalizePlane(p)[y][x] <= NormalizePlane(p)[y'][x']
  {
    var lo, hi := PlaneMin(p), PlaneMax(p);
    if lo < hi {
      RescaleMonotone(p[y][x], p[y'][x'], lo, hi);
    }
  }

  /** An 8-bit channel that already spans 0..255 is returned unchanged. */
  lemma NormalizeFixesFullRange(p: Plane)
    requires NonEmptyPlane(p) && IsBytePlane(p) && IsLeast(0, p) && IsGreatest(255, p)
    ensures NormalizePlane(p) == p
  {
    LeastIsPlaneMin(0, p);
    GreatestIsPlaneMax(255, p);
    var q := NormalizePlane(p);
    forall y, x | 0 <= y < |p| && 0 <= x < |p[y]|
      ensures q[y][x] == p[y][x]
    {
      RescaleFullRange(p[y][x]);
    }
    PlaneExtensional(q, p);
  }

  /** Normalising a normalised channel changes nothing. */
  lemma NormalizeIdempotent(p: Plane)
    requires NonEmptyPlane(p)
    ensures NormalizePlane(NormalizePlane(p)) == NormalizePlane(p)
  {
    var q := NormalizePlane(p);
    var lo, hi := PlaneMin(p), PlaneMax(p);
    if lo < hi {
      NormalizeStretches(p, lo, hi);
      NormalizeFixesFullRange(q);
    } else {
      NormalizeZeroIffConstant(p);
      NormalizeZeroIffConstant(q);
      PlaneExtensional(NormalizePlane(q), q);
    }
  }

  /* ---------------------------------------------------------------
     Whole images
     --------------------------------------------------------------- */

  /** Channel k of a stack is the k-th stacked plane. */
  lemma ChannelOfStack(planes: seq<Plane>, h: nat, w: nat, k: nat)
    requires Shaped(planes, h, w) && k < |planes|
    ensures Channel(Stack(planes, h, w), k) == planes[k]
  {
    PlaneExtensional(Channel(Stack(planes, h, w), k), planes[k]);
  }

  /** Two images of one shape whose channels agree are equal. */
  lemma PixelsExtensional(a: Pixels, b: Pixels, h: nat, w: nat, c: nat)
    requires IsPixels(a, h, w, c) && IsPixels(b, h, w, c)
    requires forall k :: 0 <= k < c ==> Channel(a, k) == Channel(b, k)
    ensures a == b
  {
    forall y, x | 0 <= y < h && 0 <= x < w
      ensures a[y][x] == b[y][x]
    {
      forall k | 0 <= k < c
        ensures a[y][x][k] == b[y][x][k]
      {
        assert Channel(a, k)[y][x] == Channel(b, k)[y][x];
      }
    }
    assert forall y :: 0 <= y < h ==> a[y] == b[y];
  }

  /** The output image of a successful conversion. */
  function Output(s: Source): (a: Pixels)
    requires ValidSource(s) && Convert(s).Success?
    ensures IsPixels(a, Height(s), Width(s), 3)
  {
    Convert(s).value
  }

  /**
    A grayscale image is accepted, and each of the three output channels
    is the normalised grayscale plane, so the channels are identical.
  */
  lemma ConvertGrayReplicates(p: Plane)
    requires NonEmptyPlane(p)
    ensures Convert(Gray(p)).Success?
    ensures forall k :: 0 <= k < 3 ==> Channel(Output(Gray(p)), k) == NormalizePlane(p)
    ensures var a := Output(Gray(p));
      forall y, x :: 0 <= y < |p| && 0 <= x < |p[0]| ==> a[y][x][0] == a[y][x][1] == a[y][x][2]
  {
    var n := NormalizePlane(p);
    forall k | 0 <= k < 3
      ensures Channel(Output(Gray(p)), k) == n
    {
      ChannelOfStack([n, n, n], |p|, |p[0]|, k);
    }
  }

  /** A one-channel image is accepted and its normalised channel is replicated three times. */
  lemma ConvertSingleChannelReplicates(a: Pixels)
    requires ValidSource(Multi(a)) && ChannelCount(a) == 1
    ensures Convert(Multi(a)).Success?
    ensures forall k :: 0 <= k < 3 ==> Channel(Output(Multi(a)), k) == NormalizePlane(Channel(a, 0))
  {
    var n := NormalizeChannels(a)[0];
    forall k | 0 <= k < 3
      ensures Channel(Output(Multi(a)), k) == n
    {
      ChannelOfStack([n, n, n], |a|, |a[0]|, k);
    }
  }

  /** A three-channel image is accepted and output channel k is input channel k, normalised. */
  lemma ConvertKeepsChannelOrder(a: Pixels)
    requires ValidSource(Multi(a)) && ChannelCount(a) == 3
    ensures Convert(Multi(a)).Success?
    ensures forall k :: 0 <= k < 3 ==> Channel(Output(Multi(a)), k) == NormalizePlane(Channel(a, k))
  {
    var channels := NormalizeChannels(a);
    forall k | 0 <= k < 3
      ensures Channel(Output(Multi(a)), k) == channels[k]
    {
      ChannelOfStack(channels[..3], |a|, |a[0]|, k);
    }
  }

  /**
    Channels are normalised independently: two three-channel images that
    agree on input channel k agree on output channel k, whatever their
    other channels hold.
  */
  lemma ConvertChannelsIndependent(a: Pixels, b: Pixels, k: nat)
    requires ValidSource(Multi(a)) && ChannelCount(a) == 3
    requires ValidSource(Multi(b)) && ChannelCount(b) == 3
    requires k < 3 && Channel(a, k) == Channel(b, k)
    ensures Convert(Multi(a)).Success? && Convert(Multi(b)).Success?
    ensures Channel(Output(Multi(a)), k) == Channel(Output(Multi(b)), k)
  {
    ConvertKeepsChannelOrder(a);
    ConvertKeepsChannelOrder(b);
  }

  /** A plane viewed as an H x W x 1 image. */
  function AddChannelAxis(p: Plane): (a: Pixels)
    requires NonEmptyPlane(p)
    ensures ValidSource(Multi(a)) && ChannelCount(a) == 1
    ensures Channel(a, 0) == p
  {
    var a := seq(|p|, y requires 0 <= y < |p| => seq(|p[y]|, x requires 0 <= x < |p[y]| => [p[y][x]]));
    PlaneExtensional(Channel(a, 0), p);
    a
  }

  /** The grayscale branch and the one-channel branch agree. */
  lemma ConvertGrayAsSingleChannel(p: Plane)
    requires NonEmptyPlane(p)
    ensures Convert(Gray(p)) == Convert(Multi(AddChannelAxis(p)))
  {
    var a := AddChannelAxis(p);
    assert NormalizeChannels(a)[0] == NormalizePlane(p);
  }

  /** The input plane that output channel k of a successful conversion is computed from. */
  function SourcePlane(s: Source, k: nat): (p: Plane)
    requires ValidSource(s) && Convert(s).Success? && k < 3
    ensures NonEmptyPlane(p) && IsPlane(p, Height(s), Width(s))
  {
    match s
    case Gray(p) => p
    case Multi(a) => Channel(a, if ChannelCount(a) == 1 then 0 else k)
  }

  /** Output channel k of every successful conversion is its source plane, normalised. */
  lemma OutputChannel(s: Source, k: nat)
    requires ValidSource(s) && Convert(s).Success? && k < 3
    ensures Channel(Output(s), k) == NormalizePlane(SourcePlane(s, k))
  {
    match s
    case Gray(p) => ConvertGrayReplicates(p);
    case Multi(a) =>
      if ChannelCount(a) == 1 {
        ConvertSingleChannelReplicates(a);
      } else {
        ConvertKeepsChannelOrder(a);
      }
  }

  /**
    Converting an image that is itself a conversion result returns it
    unchanged: every output channel is either all zeros or already spans
    0..255.
  */
  lemma ConvertIdempotent(s: Source)
    requires ValidSource(s) && Convert(s).Success?
    ensures ValidSource(Multi(Output(s)))
    ensures Convert(Multi(Output(s))) == Convert(s)
  {
    var out := Output(s);
    ConvertKeepsChannelOrder(out);
    var again := Output(Multi(out));
    forall k | 0 <= k < 3
      ensures Channel(again, k) == Channel(out, k)
    {
      OutputChannel(s, k);
      NormalizeIdempotent(SourcePlane(s, k));
    }
    PixelsExtensional(again, out, Height(s), Width(s), 3);
  }

  /* ---------------------------------------------------------------
     Worked examples
     --------------------------------------------------------------- */

  /**
    The grayscale plane [[0, 50], [100, 200]] normalises to [[0, 63], [127, 255]]:
    50 * 255 / 200 = 63.75 and 100 * 255 / 200 = 127.5 are truncated, not
    rounded.  By `ConvertGrayReplicates` this is each of the three output
    channels of `Convert(Gray(p))`.
  */
  // The plane is a parameter pinned by `requires` so that Dafny does not unfold the literal eagerly.
  lemma GrayscaleExample(p: Plane)
    requires p == [[0, 50], [100, 200]]
    ensures NonEmptyPlane(p) && NormalizePlane(p) == [[0, 63], [127, 255]]
  {
    GrayscaleRange(p);
    var q := NormalizePlane(p);
    assert q == RescaleRows(p, 0, 200);
    assert q[0] == [0, 63] by {
      assert q[0][0] == Rescale(0, 0, 200) == 0;
      assert q[0][1] == Rescale(50, 0, 200) == 63;
    }
    assert q[1] == [127, 255] by {
      assert q[1][0] == Rescale(100, 0, 200) == 127;
      assert q[1][1] == Rescale(200, 0, 200) == 255;
    }
    assert q == [q[0], q[1]];
  }

  /** The least and greatest intensities of the grayscale example. */
  // The plane is a parameter pinned by `requires` so that Dafny does not unfold the literal eagerly.
  lemma GrayscaleRange(p: Plane)
    requires p == [[0, 50], [100, 200]]
    ensures NonEmptyPlane(p) && PlaneMin(p) == 0 && PlaneMax(p) == 200
  {
    assert forall y, x :: 0 <= y < |p| && 0 <= x < |p[y]| ==> 0 <= p[y][x] <= 200;
    assert IsLeast(0, p) && IsGreatest(200, p) by { assert p[0][0] == 0 && p[1][1] == 200; }
    LeastIsPlaneMin(0, p);
    GreatestIsPlaneMax(200, p);
  }

  /** The least and greatest intensities of the constant example coincide. */
  // The plane is a parameter pinned by `requires` so that Dafny does not unfold the literal eagerly.
  lemma ConstantRange(p: Plane)
    requires p == [[7, 7], [7, 7]]
    ensures NonEmptyPlane(p) && PlaneMin(p) == 7 && PlaneMax(p) == 7
  {
    assert forall y, x :: 0 <= y < |p| && 0 <= x < |p[y]| ==> p[y][x] == 7;
    assert IsLeast(7, p) && IsGreatest(7, p) by { assert p[0][0] == 7; }
    LeastIsPlaneMin(7, p);
    GreatestIsPlaneMax(7, p);
  }

  /** The constant grayscale plane [[7, 7], [7, 7]] normalises to black. */
  // The plane is a parameter pinned by `requires` so that Dafny does not unfold the literal eagerly.
  lemma ConstantExample(p: Plane)
    requires p == [[7, 7], [7, 7]]
    ensures NonEmptyPlane(p) && NormalizePlane(p) == [[0, 0], [0, 0]]
  {
    ConstantRange(p);
    var q := NormalizePlane(p);
    assert q == ZeroRows(p);
    assert q[0] == [0, 0] && q[1] == [0, 0];
    assert q == [q[0], q[1]];
  }
}
