/** The size arithmetic of `downscale_image` (app.py, lines 42-53) and its
    effect on the stored picture. Colour conversion, resampling and JPEG
    encoding are not computed: a picture's pixels are known by where they
    came from, the uploaded bytes or a resampling of other pixels to a new
    size. Sizes are computed with exact rational arithmetic and then floored,
    which is what `int(w * scale)` does when the float products carry no
    rounding error. */
module Normalize {

  /** The default `max_dim`. */
  const MaxDim: nat := 1600

  /** The imaging library's `Image.MAX_IMAGE_PIXELS`; opening an image with
      more than twice as many pixels raises `DecompressionBombError`. */
  const MaxImagePixels: nat := 89478485

  function Max(a: nat, b: nat): nat {
    if a >= b then a else b
  }

  /** How a stored file is encoded: as uploaded, or as the JPEG at quality
      85 that `img.save(path, format='JPEG', quality=85)` writes. */
  datatype Encoding = AsUploaded | Jpeg85

  /** The pixels of a decodable image: those decoded from the uploaded
      bytes, or a resampling of other pixels to a new size. */
  datatype Raster = Decoded(bytes: seq<bv8>) | Resampled(source: Raster, width: nat, height: nat)

  /** A stored file: a decodable image of some size, or bytes the imaging
      library cannot open. */
  datatype Picture =
    | Image(width: nat, height: nat, encoding: Encoding, pixels: Raster)
    | Undecodable(bytes: seq<bv8>)

  /** The pixel count the imaging library's bomb check uses, which counts a
      side of 0 as 1. */
  function PixelCount(w: nat, h: nat): nat {
    MulNonNegative(Max(1, w), Max(1, h));
    Max(1, w) * Max(1, h)
  }

  /** `Image.open` refuses the image as a decompression bomb. */
  predicate TooManyPixels(w: nat, h: nat) {
    PixelCount(w, h) > 2 * MaxImagePixels
  }

  /** What lines 47-50 decide for a `w` by `h` image: keep the size
      (`scale == 1.0`), resize to the floored scaled size (`scale < 1.0`), or
      fail on `max_dim / max(w, h)` when both sides are 0. */
  datatype Plan = KeepSize | ResizeTo(width: nat, height: nat) | DivisionByZero

  function PlanFor(w: nat, h: nat, maxDim: nat): Plan {
    var m := Max(w, h);
    if m == 0 then DivisionByZero
    else if maxDim < m then ResizeTo(Scaled(w, maxDim, m), Scaled(h, maxDim, m))
    else KeepSize
  }

  /** `int(side * (maxDim / m))`, computed exactly: `side * maxDim / m` rounded down. */
  function Scaled(side: nat, maxDim: nat, m: nat): nat
    requires m > 0
  {
    MulNonNegative(side, maxDim);
    side * maxDim / m
  }

  lemma MulNonNegative(a: nat, b: nat)
    ensures a * b >= 0
  {
  }

  /** The picture at `path` after `downscale_image(path, maxDim)`. Every
      exception is swallowed by the handler at lines 52-53, so a failure
      leaves the file as it was: bytes that do not decode, a decompression
      bomb, a division by zero, or a target with a side of 0, which the
      imaging library's resize refuses. Otherwise the image is re-encoded
      as JPEG, resized or not. */
  function Downscaled(p: Picture, maxDim: nat): Picture {
    match p
    case Undecodable(_) => p
    case Image(w, h, _, pixels) =>
      if TooManyPixels(w, h) then p
      else
        match PlanFor(w, h, maxDim)
        case KeepSize => Image(w, h, Jpeg85, pixels)
        case ResizeTo(nw, nh) =>
          if nw == 0 || nh == 0 then p else Image(nw, nh, Jpeg85, Resampled(pixels, nw, nh))
        case DivisionByZero => p
  }

  /** The inputs on which some step of `downscale_image` raises: the file
      does not decode, is a decompression bomb, has no pixels at all, or is
      so elongated that its short side would scale to 0. */
  predicate DownscaleFails(p: Picture, maxDim: nat) {
    p.Undecodable? || TooManyPixels(p.width, p.height) || Max(p.width, p.height) == 0
    || (maxDim < Max(p.width, p.height)
        && (Scaled(p.width, maxDim, Max(p.width, p.height)) == 0
            || Scaled(p.height, maxDim, Max(p.width, p.height)) == 0))
  }

  /** `x / m` is the floor of the quotient: `q * m <= x < (q + 1) * m`, and
      it is at most `k` when `x <= k * m`. */
  lemma FloorDiv(x: nat, m: nat, k: nat)
    requires m > 0
    ensures (x / m) * m <= x < (x / m + 1) * m
    ensures x <= k * m ==> x / m <= k
  {
    var q := x / m;
    assert x == q * m + x % m;
    if x <= k * m && q > k {
      MulMonotone(k + 1, q, m);
    }
  }

  lemma MulMonotone(a: nat, b: nat, m: nat)
    requires a <= b
    ensures a * m <= b * m
  {
  }

  /** An image with at least one pixel and no larger than `maxDim` on both
      sides keeps its size; it is re-encoded as JPEG unless the imaging
      library refuses to open it. A 0 by 0 image is the other exception: see
      `EmptyImageStaysAsUploaded`. */
  lemma SmallKeepsSize(w: nat, h: nat, maxDim: nat, pixels: Raster)
    requires 0 < Max(w, h) <= maxDim
    ensures PlanFor(w, h, maxDim) == KeepSize
    ensures !TooManyPixels(w, h) ==>
      Downscaled(Image(w, h, AsUploaded, pixels), maxDim) == Image(w, h, Jpeg85, pixels)
    ensures TooManyPixels(w, h) ==>
      Downscaled(Image(w, h, AsUploaded, pixels), maxDim) == Image(w, h, AsUploaded, pixels)
  {
  }

  /** A 0 by 0 image fails on `max_dim / max(w, h)` and stays as uploaded,
      whatever `maxDim` is. */
  lemma EmptyImageStaysAsUploaded(maxDim: nat, pixels: Raster)
    ensures PlanFor(0, 0, maxDim) == DivisionByZero
    ensures DownscaleFails(Image(0, 0, AsUploaded, pixels), maxDim)
    ensures Downscaled(Image(0, 0, AsUploaded, pixels), maxDim) == Image(0, 0, AsUploaded, pixels)
  {
  }

  /** With the default `max_dim`, an image that needs no resizing is never
      a decompression bomb. */
  lemma SmallIsNoBomb(w: nat, h: nat)
    requires Max(w, h) <= MaxDim
    ensures !TooManyPixels(w, h)
  {
    MulMonotone(Max(1, w), MaxDim, Max(1, h));
    MulMonotone(Max(1, h), MaxDim, MaxDim);
  }

  /** One side of a larger image, scaled: at most `maxDim` and at most its
      old length, its exact scaled length rounded down, and exactly
      `maxDim` for the longer side. */
  lemma ScaledSide(side: nat, maxDim: nat, m: nat)
    requires side <= m && maxDim < m
    ensures Scaled(side, maxDim, m) <= maxDim && Scaled(side, maxDim, m) <= side
    ensures Scaled(side, maxDim, m) * m <= side * maxDim < (Scaled(side, maxDim, m) + 1) * m
    ensures side == m ==> Scaled(side, maxDim, m) == maxDim
  {
    FloorDiv(side * maxDim, m, maxDim);
    assert side * maxDim <= maxDim * m by { MulMonotone(side, m, maxDim); }
    FloorDiv(side * maxDim, m, side);
    assert side * maxDim <= side * m by { MulMonotone(maxDim, m, side); }
    if side == m {
      assert side * maxDim == maxDim * m;
      ExactDiv(maxDim, m);
    }
  }

  /** A larger image is resized so that both sides are at most `maxDim`,
      neither side grows, the longer side becomes exactly `maxDim`, each
      side is its exact scaled length rounded down, and the order of the
      two sides is preserved. */
  lemma LargeIsBounded(w: nat, h: nat, maxDim: nat)
    requires maxDim < Max(w, h)
    ensures PlanFor(w, h, maxDim).ResizeTo?
    ensures var ResizeTo(nw, nh) := PlanFor(w, h, maxDim);
      && nw <= maxDim && nh <= maxDim
      && nw <= w && nh <= h
      && Max(nw, nh) == maxDim
      && nw * Max(w, h) <= w * maxDim < (nw + 1) * Max(w, h)
      && nh * Max(w, h) <= h * maxDim < (nh + 1) * Max(w, h)
      && (w <= h ==> nw <= nh)
  {
    var m := Max(w, h);
    ScaledSide(w, maxDim, m);
    ScaledSide(h, maxDim, m);
    if w <= h {
      MulMonotone(w, h, maxDim);
      DivMonotone(w * maxDim, h * maxDim, m);
    }
  }

  lemma ExactDiv(k: nat, m: nat)
    requires m > 0
    ensures k * m / m == k
  {
    var q := k * m / m;
    assert q * m + (k * m) % m == k * m;
    if q < k {
      MulMonotone(q + 1, k, m);
    }
  }

  lemma DivMonotone(x: nat, y: nat, m: nat)
    requires m > 0 && x <= y
    ensures x / m <= y / m
  {
    FloorDiv(x, m, 0);
    FloorDiv(y, m, 0);
  }

  /** `downscale_image` never makes a side larger, whatever happens. */
  lemma DownscaleNeverGrows(p: Picture, maxDim: nat)
    requires p.Image?
    ensures Downscaled(p, maxDim).Image?
    ensures Downscaled(p, maxDim).width <= p.width
    ensures Downscaled(p, maxDim).height <= p.height
  {
    if maxDim < Max(p.width, p.height) {
      LargeIsBounded(p.width, p.height, maxDim);
    }
  }

  /** A failing step leaves the file as it was. Any other step leaves a
      JPEG that fits within `maxDim` on both sides and is no larger than
      before on either side: the same size when it already fitted, and
      otherwise its exact scaled size, rounded down, resampled from the
      decoded pixels. */
  lemma DownscaleResult(p: Picture, maxDim: nat)
    ensures DownscaleFails(p, maxDim) ==> Downscaled(p, maxDim) == p
    ensures !DownscaleFails(p, maxDim) ==>
      var q := Downscaled(p, maxDim);
      && q.Image? && q.encoding == Jpeg85
      && q.width <= maxDim && q.height <= maxDim
      && q.width <= p.width && q.height <= p.height
      && (Max(p.width, p.height) <= maxDim ==> q == Image(p.width, p.height, Jpeg85, p.pixels))
      && (maxDim < Max(p.width, p.height) ==>
            var m := Max(p.width, p.height);
            q == Image(Scaled(p.width, maxDim, m), Scaled(p.height, maxDim, m), Jpeg85,
                       Resampled(p.pixels, Scaled(p.width, maxDim, m), Scaled(p.height, maxDim, m)))
            && Max(q.width, q.height) == maxDim)
  {
    if p.Image? && maxDim < Max(p.width, p.height) {
      LargeIsBounded(p.width, p.height, maxDim);
    }
  }

  /** A 1 by 2000 image is left as uploaded: its short side scales to
      `int(1 * 0.8) == 0`, the resize raises and the error is swallowed, so
      the stored file keeps a side longer than the default `max_dim`. */
  lemma SliverStaysAsUploaded(pixels: Raster)
    ensures DownscaleFails(Image(1, 2000, AsUploaded, pixels), MaxDim)
    ensures Downscaled(Image(1, 2000, AsUploaded, pixels), MaxDim) == Image(1, 2000, AsUploaded, pixels)
  {
    assert Scaled(1, MaxDim, 2000) == 0;
  }

  /** A 13400 by 13400 image is left as uploaded: opening it raises
      `DecompressionBombError`, which is swallowed. */
  lemma BombStaysAsUploaded(pixels: Raster)
    ensures TooManyPixels(13400, 13400)
    ensures Downscaled(Image(13400, 13400, AsUploaded, pixels), MaxDim) == Image(13400, 13400, AsUploaded, pixels)
  {
    assert PixelCount(13400, 13400) == 179560000;
  }
}
