/** Screen geometry: the inclusive boxes of the damage tracker and the
    origin-and-size rectangles of the RFB protocol. */
module Rectangles {
  import opened Common

  /** A screen whose edges fit the unsigned 16-bit fields that store them. */
  datatype Screen = Screen(width: nat, height: nat) {
    predicate Valid() {
      0 < width < 0x1_0000 && 0 < height < 0x1_0000
    }

    function Pixels(): nat {
      width * height
    }

    function Full(): Box {
      Box(0, 0, width - 1, height - 1)
    }
  }

  /** Inclusive edges, possibly off the screen. */
  datatype Box = Box(left: int, top: int, right: int, bottom: int) {
    predicate Contains(x: int, y: int) {
      left <= x <= right && top <= y <= bottom
    }

    predicate Includes(inner: Box) {
      left <= inner.left && top <= inner.top && inner.right <= right && inner.bottom <= bottom
    }

    predicate Empty() {
      left > right || top > bottom
    }

    predicate OnScreen(s: Screen) {
      0 <= left <= right < s.width && 0 <= top <= bottom < s.height
    }
  }

  /** Row-major pixel index `i` lies in `b`. */
  predicate Covers(s: Screen, b: Box, i: nat)
    requires 0 < s.width
  {
    b.Contains(i % s.width, i / s.width)
  }

  /** App_VNC_Frame_Dirty_Clamp, and the four clamps of framebuffer_area_copy. */
  function Clamp(s: Screen, b: Box): Box {
    Box(if b.left < 0 then 0 else b.left,
        if b.top < 0 then 0 else b.top,
        if b.right >= s.width then s.width - 1 else b.right,
        if b.bottom >= s.height then s.height - 1 else b.bottom)
  }

  /** The damage a publication reports: its clamped box, or the whole screen when nothing is left of it. */
  function PublishedBox(s: Screen, b: Box): Box {
    var c := Clamp(s, b);
    if c.Empty() then s.Full() else c
  }

  lemma ClampIsIntersection(s: Screen, b: Box, x: int, y: int)
    ensures Clamp(s, b).Contains(x, y) <==> b.Contains(x, y) && s.Full().Contains(x, y)
  {
  }

  lemma PublishedBoxOnScreen(s: Screen, b: Box)
    requires s.Valid()
    ensures PublishedBox(s, b).OnScreen(s)
    ensures !Clamp(s, b).Empty() ==> PublishedBox(s, b) == Clamp(s, b)
  {
  }

  /** In pixels: the ones on the screen in `b`, or all of them when there is none. */
  lemma PublishedBoxShows(s: Screen, b: Box, x: int, y: int)
    requires s.Valid() && s.Full().Contains(x, y)
    ensures PublishedBox(s, b).Contains(x, y) <==>
            b.Contains(x, y) || forall u, v :: s.Full().Contains(u, v) ==> !b.Contains(u, v)
  {
    var c := Clamp(s, b);
    if !c.Empty() {
      assert s.Full().Contains(c.left, c.top) && b.Contains(c.left, c.top);
    } else {
      assert forall u, v :: s.Full().Contains(u, v) ==> !c.Contains(u, v);
    }
  }

  /** The smallest box including both. */
  function Hull(a: Box, b: Box): (h: Box)
    ensures h.Includes(a) && h.Includes(b)
    ensures forall c: Box :: c.Includes(a) && c.Includes(b) ==> c.Includes(h)
  {
    Box(if b.left < a.left then b.left else a.left,
        if b.top < a.top then b.top else a.top,
        if b.right > a.right then b.right else a.right,
        if b.bottom > a.bottom then b.bottom else a.bottom)
  }

  /** The smallest box including every one of `boxes`, if there is one. */
  function HullOf(boxes: seq<Box>): Option<Box> {
    if |boxes| == 0 then None
    else match HullOf(boxes[..|boxes| - 1])
      case None => Some(boxes[|boxes| - 1])
      case Some(h) => Some(Hull(h, boxes[|boxes| - 1]))
  }

  lemma {:induction false} HullOfIncludes(boxes: seq<Box>)
    ensures HullOf(boxes).None? <==> boxes == []
    ensures forall i :: 0 <= i < |boxes| ==> HullOf(boxes).value.Includes(boxes[i])
  {
    if boxes != [] {
      HullOfIncludes(boxes[..|boxes| - 1]);
      forall i | 0 <= i < |boxes| - 1 ensures HullOf(boxes).value.Includes(boxes[i]) {
        assert boxes[..|boxes| - 1][i] == boxes[i];
      }
    }
  }

  /** A box including every one of `boxes` includes their hull. */
  lemma {:induction false} HullOfIsLeast(boxes: seq<Box>, c: Box)
    requires boxes != []
    requires forall i :: 0 <= i < |boxes| ==> c.Includes(boxes[i])
    ensures HullOf(boxes).Some? && c.Includes(HullOf(boxes).value)
  {
    if |boxes| > 1 {
      HullOfIsLeast(boxes[..|boxes| - 1], c);
    } else {
      assert HullOf(boxes[..0]) == None;
    }
  }

  lemma {:induction false} HullOfOnScreen(s: Screen, boxes: seq<Box>)
    requires boxes != []
    requires forall i :: 0 <= i < |boxes| ==> boxes[i].OnScreen(s)
    ensures HullOf(boxes).Some? && HullOf(boxes).value.OnScreen(s)
  {
    HullOfIncludes(boxes);
    HullOfIsLeast(boxes, s.Full());
    assert HullOf(boxes).value.Includes(boxes[0]);
  }

  /** An RFB rectangle; the fields are unsigned 16-bit. */
  datatype Rect = Rect(x: nat, y: nat, width: nat, height: nat) {
    predicate Valid() {
      x < 0x1_0000 && y < 0x1_0000 && width < 0x1_0000 && height < 0x1_0000
    }

    predicate Contains(px: int, py: int) {
      x <= px < x + width && y <= py < y + height
    }

    predicate OnScreen(s: Screen) {
      0 < width && 0 < height && x + width <= s.width && y + height <= s.height
    }

    function ToBox(): Box {
      Box(x, y, x + width - 1, y + height - 1)
    }
  }

  lemma BoxContains(r: Rect, x: int, y: int)
    ensures r.ToBox().Contains(x, y) <==> r.Contains(x, y)
  {
  }

  /** RFB_Rectangle_Clip: None when it returns 0. */
  function Clip(s: Screen, r: Rect): Option<Rect> {
    if r.width == 0 || r.height == 0 || r.x >= s.width || r.y >= s.height then None
    else Some(Rect(r.x, r.y,
                   if r.x + r.width > s.width then s.width - r.x else r.width,
                   if r.y + r.height > s.height then s.height - r.y else r.height))
  }

  /** RFB_Rectangle_Intersect_Dirty against a view's damage, given here by its inclusive box. */
  function IntersectDirty(r: Rect, damage: Option<Box>): Option<Rect> {
    match damage
    case None => None
    case Some(d) =>
      var left := if r.x < d.left then d.left else r.x;
      var top := if r.y < d.top then d.top else r.y;
      var right := if r.x + r.width > d.right + 1 then d.right + 1 else r.x + r.width;
      var bottom := if r.y + r.height > d.bottom + 1 then d.bottom + 1 else r.y + r.height;
      if left >= right || top >= bottom then None
      else Some(Rect(left, top, right - left, bottom - top))
  }

  /** RFB_Request_Covers_Dirty. */
  predicate CoversDirty(r: Rect, damage: Option<Box>) {
    match damage
    case None => false
    case Some(d) =>
      r.x <= d.left && r.y <= d.top && r.x + r.width >= d.right + 1 && r.y + r.height >= d.bottom + 1
  }

  /** The rectangle an update sends for a clipped request: after the first update, an incremental request
      gets only what it shares with the damage. */
  function UpdateRect(request: Rect, onlyDamage: bool, damage: Option<Box>): Option<Rect> {
    if onlyDamage then IntersectDirty(request, damage) else Some(request)
  }

  /** What an update owes its client: the requested pixels, or the damaged ones among them. */
  predicate Owed(request: Rect, onlyDamage: bool, damage: Option<Box>, x: int, y: int) {
    request.Contains(x, y) && (onlyDamage ==> damage.Some? && damage.value.Contains(x, y))
  }

  /** It gets exactly these pixels, and no update only when there are none. */
  lemma UpdateRectShowsWhatIsOwed(request: Rect, onlyDamage: bool, damage: Option<Box>)
    requires 0 < request.width && 0 < request.height
    ensures var u := UpdateRect(request, onlyDamage, damage);
      && (u.None? <==> forall x, y :: !Owed(request, onlyDamage, damage, x, y))
      && (u.Some? ==> forall x, y :: u.value.Contains(x, y) <==> Owed(request, onlyDamage, damage, x, y))
  {
    var u := UpdateRect(request, onlyDamage, damage);
    if u.Some? {
      assert u.value.Contains(u.value.x, u.value.y);
      assert Owed(request, onlyDamage, damage, u.value.x, u.value.y);
    } else {
      forall x, y ensures !Owed(request, onlyDamage, damage, x, y) {
        assert damage.Some? && damage.value.Contains(x, y) ==> !request.Contains(x, y);
      }
    }
  }

  lemma UpdateRectOnScreen(s: Screen, request: Rect, onlyDamage: bool, damage: Option<Box>)
    requires s.Valid() && request.OnScreen(s) && (damage.Some? ==> damage.value.OnScreen(s))
    ensures var u := UpdateRect(request, onlyDamage, damage); u.Some? ==> u.value.OnScreen(s) && u.value.Valid()
  {
  }

  /** Clipping keeps exactly the pixels on the screen; None means none were. */
  lemma ClipIsIntersection(s: Screen, r: Rect)
    ensures Clip(s, r).None? <==> forall x, y :: s.Full().Contains(x, y) ==> !r.Contains(x, y)
    ensures Clip(s, r).Some? ==>
              var c := Clip(s, r).value;
              c.OnScreen(s) &&
              forall x, y :: c.Contains(x, y) <==> r.Contains(x, y) && s.Full().Contains(x, y)
  {
    if Clip(s, r).Some? {
      assert s.Full().Contains(r.x, r.y) && r.Contains(r.x, r.y);
    }
  }

  /** Intersecting keeps exactly the damaged pixels of the request; None means none were. */
  lemma IntersectIsIntersection(r: Rect, d: Box)
    requires 0 <= d.left <= d.right && 0 <= d.top <= d.bottom
    ensures IntersectDirty(r, Some(d)).None? <==> forall x, y :: d.Contains(x, y) ==> !r.Contains(x, y)
    ensures IntersectDirty(r, Some(d)).Some? ==>
              forall x, y :: IntersectDirty(r, Some(d)).value.Contains(x, y) <==> r.Contains(x, y) && d.Contains(x, y)
  {
    var i := IntersectDirty(r, Some(d));
    if i.Some? {
      assert d.Contains(i.value.x, i.value.y) && r.Contains(i.value.x, i.value.y);
    }
  }

  /** A request covers the damage exactly when every damaged pixel is a requested one. */
  lemma CoversDirtyIsInclusion(r: Rect, d: Box)
    requires 0 <= d.left <= d.right && 0 <= d.top <= d.bottom
    ensures CoversDirty(r, Some(d)) <==> forall x, y :: d.Contains(x, y) ==> r.Contains(x, y)
  {
    if forall x, y :: d.Contains(x, y) ==> r.Contains(x, y) {
      assert d.Contains(d.left, d.top) && d.Contains(d.right, d.bottom);
    }
  }
}
