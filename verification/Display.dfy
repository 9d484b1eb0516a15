/** The GUIX display driver (app_guix.c): two framebuffers, one scanned out while GUIX draws in the other. */
module Display {
  import opened Common
  import opened Rectangles
  import opened Capture

  /** framebuffer_area_copy: `dst` with the on-screen part of `rect` taken from `src`. */
  function AreaCopied(s: Screen, dst: Frame, src: Frame, rect: Box): (f: Frame)
    requires s.Valid() && |dst| == |src|
    ensures |f| == |dst|
  {
    seq(|dst|, i requires 0 <= i < |dst| => if Covers(s, Clamp(s, rect), i) then src[i] else dst[i])
  }

  /** The two frames have the same pixels outside `b`. */
  ghost predicate AgreeOutside(s: Screen, f: Frame, g: Frame, b: Box)
    requires 0 < s.width && |f| == |g|
  {
    forall i :: 0 <= i < |f| && !Covers(s, b, i) ==> f[i] == g[i]
  }

  /** A null dirty area stands for the whole screen. */
  function AreaOf(s: Screen, dirty: Option<Box>): Box {
    match dirty
    case None => s.Full()
    case Some(b) => b
  }

  /** A pixel index falls on the screen row and column it was computed from. */
  lemma IndexOf(s: Screen, x: nat, y: nat)
    requires x < s.width
    ensures (y * s.width + x) % s.width == x && (y * s.width + x) / s.width == y
  {
    var w := s.width;
    var q, r := (y * w + x) / w, (y * w + x) % w;
    assert (y - q) * w == r - x;
    NoSmallMultiple(y - q, w, r - x);
  }

  lemma IndexInRange(s: Screen, x: nat, y: nat)
    requires x < s.width && y < s.height
    ensures y * s.width + x < s.Pixels()
  {
    assert (y + 1) * s.width <= s.height * s.width;
  }

  lemma RowInRange(s: Screen, i: nat)
    requires 0 < s.width && i < s.Pixels()
    ensures i / s.width < s.height
  {
    var y := i / s.width;
    assert i == y * s.width + i % s.width;
    assert y >= s.height ==> y * s.width >= s.height * s.width;
  }

  /** The whole-screen box covers every pixel. */
  lemma FullCovers(s: Screen, i: nat)
    requires s.Valid() && i < s.Pixels()
    ensures Covers(s, s.Full(), i)
  {
    RowInRange(s, i);
  }

  /** Copying the dirty area makes the framebuffers equal exactly when they agreed outside it. */
  lemma AreaCopyReconciles(s: Screen, dst: Frame, src: Frame, rect: Box)
    requires s.Valid() && |dst| == |src| == s.Pixels()
    ensures AreaCopied(s, dst, src, rect) == src <==> AgreeOutside(s, dst, src, Clamp(s, rect))
  {
    var f := AreaCopied(s, dst, src, rect);
    if f == src {
      forall i | 0 <= i < |dst| && !Covers(s, Clamp(s, rect), i) ensures dst[i] == src[i] {
        assert f[i] == dst[i];
      }
    }
  }

  /** With a null dirty area every pixel is copied, and every pixel is reported as damaged. */
  lemma NullAreaIsEverything(s: Screen, dst: Frame, src: Frame, i: nat)
    requires s.Valid() && |dst| == |src| == s.Pixels() && i < s.Pixels()
    ensures AreaCopied(s, dst, src, AreaOf(s, None)) == src
    ensures Covers(s, PublishedBox(s, AreaOf(s, None)), i)
  {
    forall k | 0 <= k < |dst| ensures Covers(s, Clamp(s, AreaOf(s, None)), k) {
      FullCovers(s, k);
    }
    FullCovers(s, i);
  }

  /** No other index has the same column and row. */
  lemma OnlyAt(s: Screen, i: nat, x: nat, y: nat)
    requires s.Valid() && i / s.width == y && i % s.width == x
    ensures i == y * s.width + x
  {
  }

  class Driver {
    const screen: Screen
    const framebuffer0: array<Pixel>
    const framebuffer1: array<Pixel>
    const capture: FrameCapture
    /** gx_canvas_memory: where GUIX draws. */
    var canvas: array<Pixel>
    /** The layer address the LTDC scans out. */
    var scanned: array<Pixel>

    ghost predicate Valid()
      reads this, capture, capture.buffer, capture.readers
    {
      && screen.Valid() && capture.Valid() && capture.screen == screen
      && framebuffer0 != framebuffer1
      && framebuffer0.Length == framebuffer1.Length == screen.Pixels()
      && capture.readers as object != framebuffer0 && capture.readers as object != framebuffer1
      && (canvas == framebuffer0 || canvas == framebuffer1)
      && (scanned == framebuffer0 || scanned == framebuffer1)
    }

    /** GUIX starts drawing in the framebuffer that is not on the screen. */
    constructor (screen: Screen, framebuffer0: array<Pixel>, framebuffer1: array<Pixel>, capture: FrameCapture)
      requires screen.Valid() && capture.Valid() && capture.screen == screen
      requires framebuffer0 != framebuffer1 && framebuffer0.Length == framebuffer1.Length == screen.Pixels()
      requires capture.readers as object != framebuffer0 && capture.readers as object != framebuffer1
      ensures Valid() && canvas == framebuffer1 && scanned == framebuffer0
    {
      this.screen, this.framebuffer0, this.framebuffer1, this.capture := screen, framebuffer0, framebuffer1, capture;
      canvas, scanned := framebuffer1, framebuffer0;
    }

    function Other(a: array<Pixel>): array<Pixel> {
      if a == framebuffer0 then framebuffer1 else framebuffer0
    }

    /** Row by row, pixel by pixel, at the linear offset y * width + x. */
    method AreaCopy(destination: array<Pixel>, source: array<Pixel>, dirty: Option<Box>)
      requires screen.Valid() && destination != source
      requires destination.Length == source.Length == screen.Pixels()
      modifies destination
      ensures destination[..] == AreaCopied(screen, old(destination[..]), source[..], AreaOf(screen, dirty))
    {
      var box := Clamp(screen, AreaOf(screen, dirty));
      ghost var was := destination[..];
      if box.left > box.right || box.top > box.bottom {
        assert forall i :: 0 <= i < |was| ==> !Covers(screen, box, i);
        assert destination[..] == AreaCopied(screen, was, source[..], AreaOf(screen, dirty));
        return;
      }
      var y := box.top;
      while y <= box.bottom
        invariant box.top <= y <= box.bottom + 1
        invariant forall i :: 0 <= i < destination.Length ==>
                    destination[i] == if Covers(screen, box, i) && i / screen.width < y then source[i] else was[i]
      {
        CopyRow(destination, source, box, y, was);
        y := y + 1;
      }
      assert destination[..] == AreaCopied(screen, was, source[..], AreaOf(screen, dirty));
    }

    /** One memcpy of framebuffer_area_copy. */
    method CopyRow(destination: array<Pixel>, source: array<Pixel>, box: Box, y: int, ghost was: Frame)
      requires screen.Valid() && destination != source
      requires destination.Length == source.Length == screen.Pixels() == |was|
      requires box.OnScreen(screen) && box.top <= y <= box.bottom
      requires forall i :: 0 <= i < destination.Length ==>
                 destination[i] == if Covers(screen, box, i) && i / screen.width < y then source[i] else was[i]
      modifies destination
      ensures forall i :: 0 <= i < destination.Length ==>
                destination[i] == if Covers(screen, box, i) && i / screen.width < y + 1 then source[i] else was[i]
    {
      var x := box.left;
      while x <= box.right
        invariant box.left <= x <= box.right + 1
        invariant forall i :: 0 <= i < destination.Length ==>
                    destination[i] ==
                      if Covers(screen, box, i) && (i / screen.width < y || (i / screen.width == y && i % screen.width < x))
                      then source[i] else was[i]
      {
        var at := y * screen.width + x;
        IndexInRange(screen, x, y);
        IndexOf(screen, x, y);
        destination[at] := source[at];
        forall i | 0 <= i < destination.Length && i != at
          ensures !(i / screen.width == y && i % screen.width == x)
        {
          if i / screen.width == y && i % screen.width == x {
            OnlyAt(screen, i, x, y);
            assert false;
          }
        }
        x := x + 1;
      }
    }

    /** display_toggle: scan out the finished buffer, publish it, bring the other one up to date and draw there next.
        The vertical-blanking wait and its time-out both end with the finished buffer scanned out. */
    method Toggle(dirty: Option<Box>)
      requires Valid()
      modifies this`canvas, this`scanned, framebuffer0, framebuffer1, capture, capture.buffer
      ensures Valid()
      ensures scanned == old(canvas) && canvas == Other(old(canvas)) && canvas != scanned
      ensures scanned[..] == old(canvas[..])
      ensures canvas[..] == AreaCopied(screen, old(Other(canvas)[..]), old(canvas[..]), AreaOf(screen, dirty))
      ensures var was := old(capture.Contents()); var slot := FirstFree(was, 0);
        capture.Contents() ==
          if slot == capture.count then was
          else Committed(was.(buffers := was.buffers[slot := old(canvas[..])]), slot, PublishedBox(screen, AreaOf(screen, dirty)))
    {
      var rendered := canvas;
      var next := if rendered == framebuffer0 then framebuffer1 else framebuffer0;
      scanned := rendered;
      var _ := capture.Publish(rendered, AreaOf(screen, dirty));
      AreaCopy(next, rendered, dirty);
      canvas := next;
    }
  }
}
