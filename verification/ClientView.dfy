/** What a client shows after the replies of a session, read from their bytes alone. */
module ClientView {
  import opened Common
  import opened Rectangles
  import opened Capture
  import opened Display
  import opened PixelFormat
  import opened RawUpdate
  import opened ClientMessages
  import opened SessionLog
  import M = Mirror
  import R = CaptureRuns

  /** Pixel `i` of the screen lies in `r`. */
  predicate Inside(s: Screen, r: Rect, i: nat)
    requires s.Valid()
  {
    i < s.Pixels() && Covers(s, r.ToBox(), i)
  }

  /** Its place among the pixels of `r`. */
  function PlaceOf(s: Screen, r: Rect, i: nat): nat
    requires s.Valid() && Inside(s, r, i)
  {
    NotBefore(s, r, i);
    (i / s.width - r.y) * r.width + (i % s.width - r.x)
  }

  lemma NotBefore(s: Screen, r: Rect, i: nat)
    requires s.Valid() && Inside(s, r, i)
    ensures r.y <= i / s.width < r.y + r.height && r.x <= i % s.width < r.x + r.width
    ensures (i / s.width - r.y) * r.width >= 0
  {
  }

  /** The rectangle of an update that has one. */
  function RectangleOf(b: seq<byte>): Rect
    requires |b| >= 16
  {
    Rect(GetU16(b[4..6]), GetU16(b[6..8]), GetU16(b[8..10]), GetU16(b[10..12]))
  }

  const FRAMEBUFFER_UPDATE := 0
  const RAW_ENCODING := 0

  /** What a client takes for an update with a Raw rectangle. */
  predicate IsRawUpdate(b: seq<byte>) {
    |b| >= 16 && b[0] == FRAMEBUFFER_UPDATE && GetU16(b[2..4]) == 1 && GetU32(b[12..16]) == RAW_ENCODING
  }

  /** A client reading one FramebufferUpdate of at most one Raw rectangle: the number on the wire for each pixel. */
  function ClientReads(s: Screen, b: seq<byte>, f: Format): map<nat, nat>
    requires s.Valid()
  {
    if !IsRawUpdate(b) then map[]
    else
      var r := RectangleOf(b);
      map i: nat | i < s.Pixels() && Inside(s, r, i) :: FromWire(Cell(b[16..], f.Bytes(), PlaceOf(s, r, i)), f.bigEndian)
  }

  function RawSize(r: Rect, f: Format): nat {
    NotNegative(r.width, r.height);
    NotNegative(r.width * r.height, f.Bytes());
    r.width * r.height * f.Bytes()
  }

  /** How long the first update on the wire is, 0 if it has not come whole or is no update a client understands. */
  function FirstSize(b: seq<byte>, f: Format): (n: nat)
    ensures n <= |b|
  {
    if |b| < 4 || b[0] != FRAMEBUFFER_UPDATE then 0
    else if GetU16(b[2..4]) == 0 then 4
    else if !IsRawUpdate(b) then 0
    else
      var n := 16 + RawSize(RectangleOf(b), f);
      if n <= |b| then n else 0
  }

  /** The client finds the updates on the wire one after the other. */
  function Updates(b: seq<byte>, f: Format): seq<seq<byte>> {
    var n := FirstSize(b, f);
    if n == 0 then [] else [b[..n]] + Updates(b[n..], f)
  }

  /** What it shows after them. */
  function Shown(s: Screen, updates: seq<seq<byte>>, f: Format): map<nat, nat>
    requires s.Valid()
  {
    if updates == [] then map[]
    else Shown(s, updates[..|updates| - 1], f) + ClientReads(s, updates[|updates| - 1], f)
  }

  /** The rectangle a reply shows. */
  function ReplyRect(s: Screen, log: seq<Message>, r: Reply): Option<Rect>
    requires r.handled <= |log| && Settled(log, r) > 0
  {
    match Clip(s, Answers(log, r).rect)
    case None => None
    case Some(c) => UpdateRect(c, r.onlyDamage, r.seen.damage)
  }

  /** The frame it shows, and the pixels it brings. */
  function ReplyFrame(r: Reply): Frame {
    if r.seen.published < |r.seen.buffers| then r.seen.buffers[r.seen.published] else []
  }

  function PixelsOf(s: Screen, r: Rect, frame: Frame): map<nat, nat>
    requires s.Valid()
  {
    map i: nat | i < s.Pixels() && Inside(s, r, i) && i < |frame| :: frame[i]
  }

  function ReplyPixels(s: Screen, log: seq<Message>, r: Reply): map<nat, nat>
    requires s.Valid() && r.handled <= |log| && Settled(log, r) > 0
  {
    match ReplyRect(s, log, r)
    case None => map[]
    case Some(u) => PixelsOf(s, u, ReplyFrame(r))
  }

  // ---------------------------------------------------------------- one reply

  /** The header reads back as the rectangle. */
  lemma HeaderReads(u: Rect, pixels: seq<byte>)
    requires u.Valid()
    ensures var b := UpdateHeader(u) + pixels;
      && IsRawUpdate(b) && b[16..] == pixels
      && GetU16(b[4..6]) == u.x && GetU16(b[6..8]) == u.y && GetU16(b[8..10]) == u.width && GetU16(b[10..12]) == u.height
  {
    U16RoundTrip(1);
    U16RoundTrip(u.x);
    U16RoundTrip(u.y);
    U16RoundTrip(u.width);
    U16RoundTrip(u.height);
    U32RoundTrip(0);
    HeaderFields(PutU16(1), PutU16(u.x), PutU16(u.y), PutU16(u.width), PutU16(u.height), PutU32(0), pixels);
  }

  lemma HeaderFields(n: seq<byte>, x: seq<byte>, y: seq<byte>, w: seq<byte>, h: seq<byte>, e: seq<byte>, pixels: seq<byte>)
    requires |n| == |x| == |y| == |w| == |h| == 2 && |e| == 4
    ensures var header: seq<byte> := [0, 0] + n + x + y + w + h + e;
      var b := header + pixels;
      && |header| == 16 && b[0] == 0 && b[2..4] == n
      && b[4..6] == x && b[6..8] == y && b[8..10] == w && b[10..12] == h && b[12..16] == e && b[16..] == pixels
  {
  }

  lemma PlaceIsPlaced(s: Screen, u: Rect, i: nat)
    requires s.Valid() && Inside(s, u, i)
    ensures i % s.width >= u.x && i / s.width >= u.y
    ensures Placed(s, u, i % s.width - u.x, i / s.width - u.y, PlaceOf(s, u, i), i)
  {
    NotBefore(s, u, i);
    Divided(i, s.width);
  }

  /** Each pixel of a Raw rectangle is found at its place. */
  lemma CellIsPixel(s: Screen, frame: Frame, u: Rect, f: Format, i: nat)
    requires s.Valid() && u.OnScreen(s) && |frame| == s.Pixels() && Supported(f) && Inside(s, u, i)
    ensures FromWire(Cell(RawRectangle(s, frame, u, f), f.Bytes(), PlaceOf(s, u, i)), f.bigEndian) == Convert(frame[i], f)
  {
    hide RawRectangle, Recovered, Lossless, Supported, Placed, PlaceOf, Cell, FromWire, Convert;
    PlaceIsPlaced(s, u, i);
    RawRectangleShowsTheFrame(s, frame, u, f, i % s.width - u.x, i / s.width - u.y, PlaceOf(s, u, i), i);
  }

  /** The pixels as numbers on the wire. */
  function Converted(pixels: map<nat, Pixel>, f: Format): map<nat, nat> {
    map i | i in pixels :: Convert(pixels[i], f)
  }

  lemma UpdateReads(s: Screen, frame: Frame, u: Rect, f: Format)
    requires s.Valid() && u.OnScreen(s) && u.Valid() && |frame| == s.Pixels() && Supported(f)
    ensures ClientReads(s, UpdateHeader(u) + RawRectangle(s, frame, u, f), f) == Converted(PixelsOf(s, u, frame), f)
  {
    var raw := RawRectangle(s, frame, u, f);
    HeaderReads(u, raw);
    hide RawRectangle, UpdateHeader, Inside, PlaceOf, FromWire, Convert, Screen.Pixels;
    forall i: nat | i < s.Pixels() && Inside(s, u, i)
      ensures FromWire(Cell(raw, f.Bytes(), PlaceOf(s, u, i)), f.bigEndian) == Convert(frame[i], f)
    {
      CellIsPixel(s, frame, u, f, i);
    }
  }

  lemma UpdateIsFirst(s: Screen, frame: Frame, u: Rect, f: Format, tail: seq<byte>)
    requires s.Valid() && u.OnScreen(s) && u.Valid() && |frame| == s.Pixels()
    ensures var b := UpdateHeader(u) + RawRectangle(s, frame, u, f); FirstSize(b + tail, f) == |b|
  {
    hide UpdateHeader, FirstSize, GetU16, RawPixels;
    var raw := RawRectangle(s, frame, u, f);
    RawPixelsSize(s, frame, u, f, u.width * u.height);
    HeaderReads(u, raw + tail);
    Regroup(UpdateHeader(u), raw, tail);
    FirstSizeIs(UpdateHeader(u) + raw + tail, u, f);
  }

  lemma FirstSizeIs(b: seq<byte>, u: Rect, f: Format)
    requires IsRawUpdate(b) && RectangleOf(b) == u && 16 + RawSize(u, f) <= |b|
    ensures FirstSize(b, f) == 16 + RawSize(u, f)
  {
    hide GetU16, GetU32, RectangleOf, RawSize;
  }

  lemma EmptyIsFirst(f: Format, tail: seq<byte>)
    ensures FirstSize(EMPTY_UPDATE + tail, f) == |EMPTY_UPDATE|
  {
    assert (EMPTY_UPDATE + tail)[2..4] == [0, 0];
  }

  /** What a reply put on the wire. */
  function BytesOf(r: Reply): seq<byte> {
    if r.before <= r.after then r.after[|r.before|..] else []
  }

  lemma AfterIs(before: seq<byte>, header: seq<byte>, raw: seq<byte>, after: seq<byte>)
    requires after == before + header + raw
    ensures before <= after && after[|before|..] == header + raw
  {
  }

  /** A reply sends one update, wherever it stands on the wire, and from its bytes the client reads exactly the pixels
      of the frame it shows. */
  lemma ReplyReads(s: Screen, log: seq<Message>, r: Reply, f: Format, tail: seq<byte>)
    requires s.Valid() && IsReply(s, log, r) && f == FormatAfter(log[..r.handled]) && Supported(f)
    ensures r.after == r.before + BytesOf(r) && BytesOf(r) != []
    ensures FirstSize(BytesOf(r) + tail, f) == |BytesOf(r)|
    ensures ClientReads(s, BytesOf(r), f) == Converted(ReplyPixels(s, log, r), f)
  {
    hide UpdateHeader, RawRectangle, Supported, FormatAfter, RequestsIn, FirstSize, Converted, PixelsOf, EMPTY_UPDATE;
    match Clip(s, Answers(log, r).rect)
    case None =>
      EmptyReply(s, r, f, tail);
    case Some(c) =>
      var u := UpdateRect(c, r.onlyDamage, r.seen.damage).value;
      AfterIs(r.before, UpdateHeader(u), RawRectangle(s, ReplyFrame(r), u, f), r.after);
      UpdateReads(s, ReplyFrame(r), u, f);
      UpdateIsFirst(s, ReplyFrame(r), u, f, tail);
  }

  lemma EmptyReply(s: Screen, r: Reply, f: Format, tail: seq<byte>)
    requires s.Valid() && r.after == r.before + EMPTY_UPDATE
    ensures r.before <= r.after && BytesOf(r) == EMPTY_UPDATE && BytesOf(r) != []
    ensures FirstSize(BytesOf(r) + tail, f) == |BytesOf(r)|
    ensures ClientReads(s, BytesOf(r), f) == map[] == Converted(map[], f)
  {
    EmptyIsFirst(f, tail);
    assert r.after[|r.before|..] == EMPTY_UPDATE;
  }

  // ---------------------------------------------------------------- what is asked for

  /** Clipping first makes no difference to a pixel on the screen. */
  lemma ClippedIsOwed(s: Screen, q: Rect, onlyDamage: bool, damage: Option<Box>, x: int, y: int)
    requires s.Full().Contains(x, y)
    ensures Clip(s, q).None? ==> !Owed(q, onlyDamage, damage, x, y)
    ensures Clip(s, q).Some? ==>
              var u := UpdateRect(Clip(s, q).value, onlyDamage, damage);
              Owed(q, onlyDamage, damage, x, y) <==> u.Some? && u.value.ToBox().Contains(x, y)
  {
    hide UpdateRect, Clip;
    ClipIsIntersection(s, q);
    if Clip(s, q).Some? {
      var c := Clip(s, q).value;
      UpdateRectShowsWhatIsOwed(c, onlyDamage, damage);
      assert Owed(c, onlyDamage, damage, x, y) <==> Owed(q, onlyDamage, damage, x, y);
    }
  }

  /** Pixel `i` is owed. */
  predicate OwedAt(s: Screen, q: Rect, onlyDamage: bool, damage: Option<Box>, i: nat)
    requires 0 < s.width
  {
    Owed(q, onlyDamage, damage, i % s.width, i / s.width)
  }

  lemma ClippedIsOwedAt(s: Screen, q: Rect, onlyDamage: bool, damage: Option<Box>, i: nat)
    requires s.Valid() && i < s.Pixels()
    ensures Clip(s, q).None? ==> !OwedAt(s, q, onlyDamage, damage, i)
    ensures Clip(s, q).Some? ==>
              var u := UpdateRect(Clip(s, q).value, onlyDamage, damage);
              OwedAt(s, q, onlyDamage, damage, i) <==> u.Some? && Covers(s, u.value.ToBox(), i)
  {
    hide Owed, UpdateRect, Clip;
    RowInRange(s, i);
    ClippedIsOwed(s, q, onlyDamage, damage, i % s.width, i / s.width);
  }

  lemma PixelIsIn(s: Screen, u: Rect, frame: Frame, i: nat)
    requires s.Valid() && i < s.Pixels() == |frame|
    ensures i in PixelsOf(s, u, frame) <==> Covers(s, u.ToBox(), i)
  {
    hide Covers;
  }

  /** A reply brings exactly the requested pixels on the screen, or the damaged ones among them. */
  lemma ReplyShowsWhatIsOwed(s: Screen, log: seq<Message>, r: Reply, i: nat)
    requires s.Valid() && IsReply(s, log, r) && i < s.Pixels()
    ensures i in ReplyPixels(s, log, r) <==> OwedAt(s, Answers(log, r).rect, r.onlyDamage, r.seen.damage, i)
  {
    hide OwedAt, Covers, UpdateHeader, RawRectangle, RequestsIn, FormatAfter, UpdateRect, Clip, PixelsOf;
    ClippedIsOwedAt(s, Answers(log, r).rect, r.onlyDamage, r.seen.damage, i);
    if ReplyRect(s, log, r).Some? {
      PixelIsIn(s, ReplyRect(s, log, r).value, ReplyFrame(r), i);
    }
  }

  lemma {:induction false} ReplyAt(s: Screen, log: seq<Message>, start: seq<byte>, replies: seq<Reply>, j: nat)
    requires Transcript(s, log, start, replies) && j < |replies|
    ensures var r := replies[j];
      && IsReply(s, log, r) && r.before == EndOf(start, replies[..j])
      && (r.onlyDamage <==> Answers(log, r).incremental != 0 && AnyShows(s, log, replies[..j]))
  {
    hide IsReply, AnyShows, Answers, Settled;
    var earlier := replies[..|replies| - 1];
    if j < |earlier| {
      ReplyAt(s, log, start, earlier, j);
      assert earlier[..j] == replies[..j];
    }
  }

  /** A reply to a request that is not incremental, or made before the client was shown anything, brings every requested
      pixel on the screen; any other one every requested pixel that is damaged. */
  lemma RequestsGetTheirPixels(s: Screen, log: seq<Message>, start: seq<byte>, replies: seq<Reply>, j: nat, i: nat)
    requires s.Valid() && Transcript(s, log, start, replies) && j < |replies| && i < s.Pixels()
    ensures var r := replies[j];
      && r.handled <= |log| && Settled(log, r) > 0
      && var q, x, y := Answers(log, r), i % s.width, i / s.width;
      i in ReplyPixels(s, log, r) <==>
        && q.rect.Contains(x, y)
        && (q.incremental == 0 || !AnyShows(s, log, replies[..j])
            || (r.seen.damage.Some? && r.seen.damage.value.Contains(x, y)))
  {
    hide AnyShows, Transcript, ReplyPixels;
    ReplyAt(s, log, start, replies, j);
    ReplyShowsWhatIsOwed(s, log, replies[j], i);
  }

  // ---------------------------------------------------------------- all replies

  function Chunks(replies: seq<Reply>): seq<seq<byte>> {
    seq(|replies|, j requires 0 <= j < |replies| => BytesOf(replies[j]))
  }

  /** Consecutive replies, in the same format. */
  ghost predicate Run(s: Screen, log: seq<Message>, start: seq<byte>, replies: seq<Reply>, f: Format)
    decreases |replies|
  {
    replies != [] ==>
      var earlier, r := replies[..|replies| - 1], replies[|replies| - 1];
      && Run(s, log, start, earlier, f)
      && IsReply(s, log, r) && r.before == EndOf(start, earlier) && FormatAfter(log[..r.handled]) == f
  }

  /** The replies of a session from the `m`-th on, while the format does not change. */
  lemma {:induction false} RunOf(s: Screen, log: seq<Message>, start: seq<byte>, replies: seq<Reply>, m: nat, f: Format)
    requires Transcript(s, log, start, replies) && m <= |replies|
    requires InForce(log, replies[m..], f)
    ensures Run(s, log, EndOf(start, replies[..m]), replies[m..], f)
    ensures EndOf(EndOf(start, replies[..m]), replies[m..]) == EndOf(start, replies)
  {
    hide IsReply, FormatAfter, RequestsIn, AnyShows;
    if m < |replies| {
      var earlier, run := replies[..|replies| - 1], replies[m..];
      WithoutLast(replies, m);
      RunOf(s, log, start, earlier, m, f);
    } else {
      assert replies[..m] == replies;
    }
  }

  lemma WithoutLast(replies: seq<Reply>, m: nat)
    requires m < |replies|
    ensures var earlier, run := replies[..|replies| - 1], replies[m..];
      earlier[m..] == run[..|run| - 1] && earlier[..m] == replies[..m] && run[|run| - 1] == replies[|replies| - 1]
  {
  }

  ghost predicate InForce(log: seq<Message>, replies: seq<Reply>, f: Format) {
    forall j :: 0 <= j < |replies| ==> replies[j].handled <= |log| && FormatAfter(log[..replies[j].handled]) == f
  }

  /** The updates delimit themselves: from the wire alone the client gets back the replies, one by one, whatever
      follows them. */
  lemma {:induction false} UpdatesAreReplies(s: Screen, log: seq<Message>, start: seq<byte>, replies: seq<Reply>,
                                             f: Format, tail: seq<byte>)
    requires s.Valid() && Run(s, log, start, replies, f) && Supported(f)
    ensures start <= EndOf(start, replies)
    ensures Updates(EndOf(start, replies)[|start|..] + tail, f) == Chunks(replies) + Updates(tail, f)
  {
    hide IsReply, FormatAfter, FirstSize, Supported, BytesOf, ClientReads, Converted, ReplyPixels;
    if replies == [] {
      assert start[|start|..] + tail == tail;
    } else {
      var earlier, r := replies[..|replies| - 1], replies[|replies| - 1];
      ReplyReads(s, log, r, f, tail);
      UpdatesAreReplies(s, log, start, earlier, f, BytesOf(r) + tail);
      FirstUpdate(BytesOf(r), tail, f);
      Behind(start, r.before, BytesOf(r), r.after, tail);
      assert Chunks(replies) == Chunks(earlier) + [BytesOf(r)];
    }
  }

  lemma FirstUpdate(u: seq<byte>, tail: seq<byte>, f: Format)
    requires u != [] && FirstSize(u + tail, f) == |u|
    ensures Updates(u + tail, f) == [u] + Updates(tail, f)
  {
    assert (u + tail)[..|u|] == u && (u + tail)[|u|..] == tail;
  }

  lemma Behind(start: seq<byte>, before: seq<byte>, u: seq<byte>, after: seq<byte>, tail: seq<byte>)
    requires start <= before && after == before + u
    ensures start <= after && after[|start|..] + tail == before[|start|..] + (u + tail)
  {
  }

  ghost predicate AllAnswer(log: seq<Message>, replies: seq<Reply>) {
    forall j :: 0 <= j < |replies| ==> replies[j].handled <= |log| && Settled(log, replies[j]) > 0
  }

  lemma {:induction false} RunAnswers(s: Screen, log: seq<Message>, start: seq<byte>, replies: seq<Reply>, f: Format)
    requires Run(s, log, start, replies, f)
    ensures AllAnswer(log, replies)
  {
    hide IsAnswer, RequestsIn, FormatAfter;
    if replies != [] {
      var earlier := replies[..|replies| - 1];
      RunAnswers(s, log, start, earlier, f);
      forall j | 0 <= j < |replies| - 1 ensures replies[j].handled <= |log| && Settled(log, replies[j]) > 0 {
        assert replies[j] == earlier[j];
      }
    }
  }

  /** The j-th reply is the last one that shows pixel `i`. */
  ghost predicate LastToShow(s: Screen, log: seq<Message>, replies: seq<Reply>, i: nat, j: nat)
    requires s.Valid() && AllAnswer(log, replies)
  {
    && j < |replies| && i in ReplyPixels(s, log, replies[j])
    && forall k :: j < k < |replies| ==> i !in ReplyPixels(s, log, replies[k])
  }

  /** When the last reply does not show pixel `i`, it changes nothing for it. */
  lemma NotTheLast(s: Screen, log: seq<Message>, replies: seq<Reply>, i: nat, j: nat)
    requires s.Valid() && AllAnswer(log, replies) && replies != []
    requires i !in ReplyPixels(s, log, replies[|replies| - 1])
    ensures AllAnswer(log, replies[..|replies| - 1])
    ensures LastToShow(s, log, replies, i, j) <==> LastToShow(s, log, replies[..|replies| - 1], i, j)
  {
    hide ReplyPixels, Settled;
    var earlier, n := replies[..|replies| - 1], |replies| - 1;
    assert forall k :: 0 <= k < n ==> earlier[k] == replies[k];
    if LastToShow(s, log, earlier, i, j) {
      forall k | j < k < |replies| ensures i !in ReplyPixels(s, log, replies[k]) {
        assert k < n ==> earlier[k] == replies[k];
      }
    }
  }

  lemma PixelsAreFrames(s: Screen, log: seq<Message>, r: Reply, i: nat)
    requires s.Valid() && r.handled <= |log| && Settled(log, r) > 0
    ensures i in ReplyPixels(s, log, r) ==> i < |ReplyFrame(r)| && ReplyPixels(s, log, r)[i] == ReplyFrame(r)[i]
  {
  }

  lemma ShownStep(s: Screen, replies: seq<Reply>, f: Format)
    requires s.Valid() && replies != []
    ensures var n := |replies| - 1;
      Shown(s, Chunks(replies), f) == Shown(s, Chunks(replies[..n]), f) + ClientReads(s, BytesOf(replies[n]), f)
  {
    hide ClientReads, BytesOf;
    assert Chunks(replies)[..|replies| - 1] == Chunks(replies[..|replies| - 1]);
  }

  lemma {:induction false} ShownIsLast(s: Screen, log: seq<Message>, start: seq<byte>, replies: seq<Reply>, f: Format, i: nat)
    requires s.Valid() && Run(s, log, start, replies, f) && Supported(f) && AllAnswer(log, replies)
    ensures var shown := Shown(s, Chunks(replies), f);
      && (i in shown <==> exists j: nat :: LastToShow(s, log, replies, i, j))
      && (forall j: nat :: LastToShow(s, log, replies, i, j) ==>
            i < |ReplyFrame(replies[j])| && shown[i] == Convert(ReplyFrame(replies[j])[i], f))
  {
    hide ReplyPixels, ReplyFrame, Settled, Convert, ClientReads, BytesOf, Chunks, Shown, IsReply, Supported, FormatAfter;
    if replies == [] {
      assert Shown(s, Chunks(replies), f) == map[] by { NothingShown(s, f); }
    } else {
      var earlier, n := replies[..|replies| - 1], |replies| - 1;
      ShownStep(s, replies, f);
      ReplyReads(s, log, replies[n], f, []);
      PixelsAreFrames(s, log, replies[n], i);
      if i in ReplyPixels(s, log, replies[n]) {
        assert LastToShow(s, log, replies, i, n);
      } else {
        forall j: nat ensures LastToShow(s, log, replies, i, j) <==> LastToShow(s, log, earlier, i, j) {
          NotTheLast(s, log, replies, i, j);
        }
        ShownIsLast(s, log, start, earlier, f, i);
        hide LastToShow;
      }
    }
  }

  lemma NothingShown(s: Screen, f: Format)
    requires s.Valid()
    ensures Shown(s, Chunks([]), f) == map[]
  {
  }

  /** A client reading the bytes of a session from the `m`-th reply on, while the format stays the same, shows for each
      pixel sent its value in the frame that was published when the last reply showing it began, converted to that
      format; in a lossless one it recovers the pixel. It shows no other pixel. */
  lemma ClientShowsFrameLastSeen(s: Screen, log: seq<Message>, start: seq<byte>, replies: seq<Reply>, m: nat, f: Format,
                                 i: nat)
    requires s.Valid() && Transcript(s, log, start, replies) && m <= |replies|
    requires InForce(log, replies[m..], f) && Supported(f)
    ensures var run, from, wire := replies[m..], EndOf(start, replies[..m]), EndOf(start, replies);
      && AllAnswer(log, run) && from <= wire
      && var shown := Shown(s, Updates(wire[|from|..], f), f);
      && (i in shown <==> exists j: nat :: LastToShow(s, log, run, i, j))
      && (forall j: nat :: LastToShow(s, log, run, i, j) ==>
            && i < |ReplyFrame(run[j])| && shown[i] == Convert(ReplyFrame(run[j])[i], f)
            && (Lossless(f) ==> Recovered(shown[i], f) == ReplyFrame(run[j])[i]))
  {
    hide Transcript, InForce, ReplyPixels, ReplyFrame, Convert, Recovered, Supported, Run, AllAnswer, Shown, Chunks, Updates;
    var run, from, wire := replies[m..], EndOf(start, replies[..m]), EndOf(start, replies);
    RunOf(s, log, start, replies, m, f);
    RunAnswers(s, log, from, run, f);
    UpdatesAreReplies(s, log, from, run, f, []);
    NothingMore(wire[|from|..], Chunks(run), f);
    ShownIsLast(s, log, from, run, f, i);
    forall j: nat | LastToShow(s, log, run, i, j) && Lossless(f)
      ensures Recovered(Convert(ReplyFrame(run[j])[i], f), f) == ReplyFrame(run[j])[i]
    {
      LosslessRecovers(ReplyFrame(run[j])[i], f);
    }
  }

  lemma NothingMore(b: seq<byte>, chunks: seq<seq<byte>>, f: Format)
    requires Updates(b + [], f) == chunks + Updates([], f)
    ensures Updates(b, f) == chunks
  {
    assert b + [] == b;
  }

  lemma LosslessRecovers(p: Pixel, f: Format)
    requires Lossless(f)
    ensures Recovered(Convert(p, f), f) == p
  {
    ConvertedPixelIsRecovered(p, f);
  }

  // ---------------------------------------------------------------- the server of the combined machine

  /** A reply that shows pixels is what the server of `Mirror` decides on the same view, and it brings the client
      exactly the pixels that server reads and flushes. */
  lemma ReplyIsMirrorUpdate(c: R.Config, log: seq<Message>, r: Reply, incremental: bool, sentFirst: bool)
    requires c.Valid() && IsReply(c.screen, log, r) && Clip(c.screen, Answers(log, r).rect).Some?
    requires r.onlyDamage <==> incremental && sentFirst
    ensures var request := Clip(c.screen, Answers(log, r).rect).value;
      var k := M.Decide(request, incremental, sentFirst, r.seen.damage);
      && k.Streaming? && ReplyRect(c.screen, log, r) == Some(k.update)
      && k.covers == CoversDirty(request, r.seen.damage)
      && (forall i: nat :: i in ReplyPixels(c.screen, log, r) <==> M.Requested(c, k.update, i))
      && (forall i: nat :: M.Requested(c, k.update, i) ==>
            i < |ReplyFrame(r)| && ReplyPixels(c.screen, log, r)[i] == ReplyFrame(r)[i])
  {
    hide Covers, UpdateHeader, RawRectangle, CoversDirty;
  }
}
