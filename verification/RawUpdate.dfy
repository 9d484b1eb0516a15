/** The byte form of a FramebufferUpdate with one Raw rectangle (sections 7.6.1 and 7.7.1 of RFC 6143). */
module RawUpdate {
  import opened Common
  import opened Rectangles
  import opened Capture
  import opened Display
  import opened PixelFormat

  /** Frame index of the k-th pixel of `r`, left to right, top to bottom. */
  function PixelIndex(s: Screen, r: Rect, k: nat): nat
    requires 0 < r.width
  {
    (r.y + k / r.width) * s.width + (r.x + k % r.width)
  }

  lemma PixelIndexInFrame(s: Screen, r: Rect, k: nat)
    requires r.OnScreen(s) && k < r.width * r.height
    ensures PixelIndex(s, r, k) < s.Pixels()
  {
    RowInRange(Screen(r.width, r.height), k);
    PlaceInFrame(s, r, k % r.width, k / r.width);
  }

  lemma PlaceInFrame(s: Screen, r: Rect, dx: nat, dy: nat)
    requires r.OnScreen(s) && dx < r.width && dy < r.height
    ensures (r.y + dy) * s.width + (r.x + dx) < s.Pixels()
  {
    IndexInRange(s, r.x + dx, r.y + dy);
  }

  /** The k-th pixel of `r` for k = dy * width + dx is the one dx columns and dy rows from its corner. */
  lemma PixelIndexOf(s: Screen, r: Rect, dx: nat, dy: nat)
    requires r.OnScreen(s) && dx < r.width && dy < r.height
    ensures dy * r.width + dx < r.width * r.height
    ensures PixelIndex(s, r, dy * r.width + dx) == (r.y + dy) * s.width + (r.x + dx) < s.Pixels()
  {
    var own := Screen(r.width, r.height);
    IndexInRange(own, dx, dy);
    IndexOf(own, dx, dy);
    PlaceInFrame(s, r, dx, dy);
  }

  /** The bytes of the first `n` pixels of `r`. */
  function RawPixels(s: Screen, frame: Frame, r: Rect, f: Format, n: nat): (b: seq<byte>)
    requires r.OnScreen(s) && |frame| == s.Pixels() && n <= r.width * r.height
  {
    if n == 0 then []
    else
      PixelIndexInFrame(s, r, n - 1);
      RawPixels(s, frame, r, f, n - 1) + PixelBytes(frame[PixelIndex(s, r, n - 1)], f)
  }

  lemma {:induction false} RawPixelsGrow(s: Screen, frame: Frame, r: Rect, f: Format, n: nat, m: nat)
    requires r.OnScreen(s) && |frame| == s.Pixels() && n <= m <= r.width * r.height
    ensures RawPixels(s, frame, r, f, n) <= RawPixels(s, frame, r, f, m)
  {
    if n < m {
      RawPixelsGrow(s, frame, r, f, n, m - 1);
      PixelIndexInFrame(s, r, m - 1);
    }
  }

  function RawRectangle(s: Screen, frame: Frame, r: Rect, f: Format): seq<byte>
    requires r.OnScreen(s) && |frame| == s.Pixels()
  {
    RawPixels(s, frame, r, f, r.width * r.height)
  }

  /** Message type, padding, one rectangle, its position and size, encoding Raw. */
  function UpdateHeader(r: Rect): (b: seq<byte>)
    requires r.Valid()
    ensures |b| == 16
  {
    [0, 0] + PutU16(1) + PutU16(r.x) + PutU16(r.y) + PutU16(r.width) + PutU16(r.height) + PutU32(0)
  }

  const EMPTY_UPDATE: seq<byte> := [0, 0, 0, 0]

  lemma {:induction false} RawPixelsSize(s: Screen, frame: Frame, r: Rect, f: Format, n: nat)
    requires r.OnScreen(s) && |frame| == s.Pixels() && n <= r.width * r.height
    ensures |RawPixels(s, frame, r, f, n)| == n * f.Bytes()
  {
    if n > 0 {
      RawPixelsSize(s, frame, r, f, n - 1);
      assert n * f.Bytes() == (n - 1) * f.Bytes() + f.Bytes();
    }
  }

  /** The k-th group of `size` bytes, empty when there is none. */
  function Cell(b: seq<byte>, size: nat, k: nat): seq<byte> {
    var from, to := k * size, (k + 1) * size;
    if from <= to <= |b| then b[from..to] else []
  }

  lemma NextGroup(size: nat, k: nat)
    ensures (k + 1) * size == k * size + size
  {
  }

  lemma GroupsBelow(size: nat, n: nat, k: nat)
    requires k < n
    ensures (k + 1) * size <= n * size
  {
    var others := n - (k + 1);
    assert n * size == (k + 1) * size + others * size;
  }

  lemma CellOfAppend(b: seq<byte>, tail: seq<byte>, size: nat, n: nat, k: nat)
    requires |b| == n * size && |tail| == size && k <= n
    ensures Cell(b + tail, size, k) == if k == n then tail else Cell(b, size, k)
  {
    NextGroup(size, k);
    if k < n {
      GroupsBelow(size, n, k);
      SliceOfAppend(b, tail, k * size, (k + 1) * size);
    } else {
      EndOfAppend(b, tail);
    }
  }

  lemma SliceOfAppend(b: seq<byte>, tail: seq<byte>, from: nat, to: nat)
    requires from <= to <= |b|
    ensures (b + tail)[from..to] == b[from..to]
  {
  }

  lemma EndOfAppend(b: seq<byte>, tail: seq<byte>)
    ensures (b + tail)[|b|..|b| + |tail|] == tail
  {
  }

  /** The k-th group of bytes is the k-th pixel. */
  lemma {:induction false} RawPixelAt(s: Screen, frame: Frame, r: Rect, f: Format, n: nat, k: nat)
    requires r.OnScreen(s) && |frame| == s.Pixels() && k < n <= r.width * r.height
    ensures PixelIndex(s, r, k) < |frame|
    ensures Cell(RawPixels(s, frame, r, f, n), f.Bytes(), k) == PixelBytes(frame[PixelIndex(s, r, k)], f)
  {
    hide PixelIndex, PixelBytes, Cell;
    PixelIndexInFrame(s, r, k);
    PixelIndexInFrame(s, r, n - 1);
    RawPixelsSize(s, frame, r, f, n - 1);
    var last := PixelBytes(frame[PixelIndex(s, r, n - 1)], f);
    CellOfAppend(RawPixels(s, frame, r, f, n - 1), last, f.Bytes(), n - 1, k);
    if k < n - 1 {
      RawPixelAt(s, frame, r, f, n - 1, k);
    }
  }

  /** `at` is the frame index, and `k` the place in the update, of the pixel dx columns and dy rows
      from the corner of `r`. */
  predicate Placed(s: Screen, r: Rect, dx: nat, dy: nat, k: nat, at: nat) {
    dx < r.width && dy < r.height && k == dy * r.width + dx && at == (r.y + dy) * s.width + (r.x + dx)
  }

  lemma PlacedIndex(s: Screen, r: Rect, dx: nat, dy: nat, k: nat, at: nat)
    requires r.OnScreen(s) && Placed(s, r, dx, dy, k, at)
    ensures k < r.width * r.height && at == PixelIndex(s, r, k) < s.Pixels()
  {
    PixelIndexOf(s, r, dx, dy);
  }

  /** The number of pixels of `r` before row `dy`. */
  function RowStart(r: Rect, dy: nat): nat {
    if dy == 0 then 0 else RowStart(r, dy - 1) + r.width
  }

  /** The frame index of the first pixel of row `dy`. */
  function RowSource(s: Screen, r: Rect, dy: nat): nat {
    (r.y + dy) * s.width + r.x
  }

  lemma {:induction false} RowStartIsProduct(r: Rect, dy: nat)
    ensures RowStart(r, dy) == dy * r.width
  {
    if dy > 0 {
      RowStartIsProduct(r, dy - 1);
      assert dy * r.width == (dy - 1) * r.width + r.width;
    }
  }

  lemma RowFits(r: Rect, dy: nat)
    requires dy < r.height
    ensures RowStart(r, dy) + r.width == RowStart(r, dy + 1) <= r.width * r.height
  {
    RowStartIsProduct(r, dy + 1);
    ProductGrows(dy + 1, r.height, r.width);
  }

  lemma ProductGrows(a: nat, b: nat, w: nat)
    requires a <= b
    ensures a * w <= w * b
  {
    assert (b - a) * w >= 0;
  }

  lemma AllRows(r: Rect)
    ensures RowStart(r, r.height) == r.width * r.height
  {
    RowStartIsProduct(r, r.height);
  }

  /** One more pixel of row `dy`. */
  lemma RawPixelsStep(s: Screen, frame: Frame, r: Rect, f: Format, dx: nat, dy: nat, k: nat, at: nat)
    requires r.OnScreen(s) && |frame| == s.Pixels() && dx < r.width && dy < r.height
    requires k == RowStart(r, dy) + dx && at == RowSource(s, r, dy) + dx
    ensures k < r.width * r.height && at < |frame|
    ensures RawPixels(s, frame, r, f, k + 1) == RawPixels(s, frame, r, f, k) + PixelBytes(frame[at], f)
  {
    RowStartIsProduct(r, dy);
    PlacedIndex(s, r, dx, dy, k, at);
  }

  /** The client finds each pixel of the rectangle at its row-major place, converted, and in a lossless
      format recovers it exactly. */
  lemma RawRectangleShowsTheFrame(s: Screen, frame: Frame, r: Rect, f: Format, dx: nat, dy: nat, k: nat, at: nat)
    requires r.OnScreen(s) && |frame| == s.Pixels() && Placed(s, r, dx, dy, k, at) && Supported(f)
    ensures at < |frame|
    ensures var v := FromWire(Cell(RawRectangle(s, frame, r, f), f.Bytes(), k), f.bigEndian);
      v == Convert(frame[at], f) && (Lossless(f) ==> Recovered(v, f) == frame[at])
  {
    PlacedIndex(s, r, dx, dy, k, at);
    RawPixelAt(s, frame, r, f, r.width * r.height, k);
    CellShowsPixel(frame[at], f);
  }

  lemma CellShowsPixel(p: Pixel, f: Format)
    requires Supported(f)
    ensures var v := FromWire(PixelBytes(p, f), f.bigEndian);
      v == Convert(p, f) && (Lossless(f) ==> Recovered(v, f) == p)
  {
    NoByteIsLost(p, f);
    if Lossless(f) {
      PixelsSurvive(p, f);
    }
  }
}
