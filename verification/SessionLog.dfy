/** What a session of the RFB server has handled and what it has sent, as values. */
module SessionLog {
  import opened Common
  import opened Rectangles
  import opened Capture
  import opened PixelFormat
  import opened RawUpdate
  import opened ClientMessages
  import opened NetX

  datatype Request = Request(incremental: byte, rect: Rect)

  function RequestsOf(m: Message): seq<Request> {
    if m.UpdateRequest? then [Request(m.incremental, m.rect)] else []
  }

  function PointersOf(m: Message): seq<(nat, nat, byte)> {
    if m.PointerEvent? then [(m.x, m.y, m.buttons)] else []
  }

  /** The update requests among `log`, in order. */
  function RequestsIn(log: seq<Message>): seq<Request> {
    if log == [] then [] else RequestsIn(log[..|log| - 1]) + RequestsOf(log[|log| - 1])
  }

  /** The pixel format after `log`. */
  function FormatAfter(log: seq<Message>): Format {
    if log == [] then DEFAULT_FORMAT
    else
      var m := log[|log| - 1];
      if m.SetPixelFormat? then m.format else FormatAfter(log[..|log| - 1])
  }

  /** The remote pointer events of `log`. */
  function PointersIn(log: seq<Message>): seq<(nat, nat, byte)> {
    if log == [] then [] else PointersIn(log[..|log| - 1]) + PointersOf(log[|log| - 1])
  }

  lemma LogStep(log: seq<Message>, m: Message)
    ensures m.UpdateRequest? ==>
              var requests := RequestsIn(log + [m]);
              && |requests| == |RequestsIn(log)| + 1
              && requests[|requests| - 1] == Request(m.incremental, m.rect)
    ensures !m.UpdateRequest? ==> RequestsIn(log + [m]) == RequestsIn(log)
    ensures FormatAfter(log + [m]) == if m.SetPixelFormat? then m.format else FormatAfter(log)
    ensures PointersIn(log + [m]) == PointersIn(log) + PointersOf(m)
  {
    assert (log + [m])[..|log|] == log;
  }

  /** The pointer events and the update requests are those of the messages, one each and in their order: the one of the
      `i`-th message comes behind all of the messages before. */
  lemma {:induction false} EventAt(log: seq<Message>, i: nat)
    requires i < |log|
    ensures var k := |PointersIn(log[..i])|;
      log[i].PointerEvent? ==> k < |PointersIn(log)| && PointersIn(log)[k] == (log[i].x, log[i].y, log[i].buttons)
    ensures var k := |RequestsIn(log[..i])|;
      log[i].UpdateRequest? ==> k < |RequestsIn(log)| && RequestsIn(log)[k] == Request(log[i].incremental, log[i].rect)
  {
    var earlier := log[..|log| - 1];
    if i < |earlier| {
      EventAt(earlier, i);
      assert earlier[..i] == log[..i];
    }
  }

  /** And there are no others. */
  lemma {:induction false} EventsCome(log: seq<Message>, k: nat)
    ensures k < |PointersIn(log)| ==>
              exists i :: 0 <= i < |log| && log[i].PointerEvent? && |PointersIn(log[..i])| == k
    ensures k < |RequestsIn(log)| ==>
              exists i :: 0 <= i < |log| && log[i].UpdateRequest? && |RequestsIn(log[..i])| == k
  {
    if log != [] {
      var earlier, n := log[..|log| - 1], |log| - 1;
      EventsCome(earlier, k);
      assert forall i :: 0 <= i < n ==> earlier[..i] == log[..i] && earlier[i] == log[i];
      assert log[..n] == earlier;
    }
  }

  /** Whatever was accepted, the current format is a supported one. */
  lemma {:induction false} FormatAfterIsSupported(log: seq<Message>)
    requires AllAcceptable(log)
    ensures Supported(FormatAfter(log))
  {
    if log == [] {
      DefaultIsSupported();
    } else {
      FormatAfterIsSupported(log[..|log| - 1]);
    }
  }

  /** Whoever asks for a usable format gets it. */
  lemma UsableFormatIsTakenOver(log: seq<Message>, before: seq<byte>, flag: byte, f: Format, after: seq<byte>, rest: seq<byte>)
    requires |before| == |after| == 3 && f.Typed() && (f.bigEndian <==> flag != 0) && Usable(f)
    ensures var m := SetPixelFormat(before, flag, f, after);
      && Acceptable(m) && Parse(Encode(m) + rest) == Some(Parsed(m, 20))
      && FormatAfter(log + [m]) == f
  {
    hide Supported, Usable, Parse, Encode;
    SupportedExactlyWhen(f);
    FormatMessageRoundTrip(before, flag, f, after, rest);
    LogStep(log, SetPixelFormat(before, flag, f, after));
  }

  lemma LogGrows(log: seq<Message>, unread: seq<byte>, p: Parsed)
    requires AllAcceptable(log) && Parse(unread) == Some(p)
    ensures 0 < p.size <= |unread| && AllAcceptable(log + [p.message])
    ensures EncodeAll(log) + unread == EncodeAll(log + [p.message]) + unread[p.size..]
  {
    ParseIsFaithful(unread);
    EncodeAllAppend(log, p.message);
    Reassociate(EncodeAll(log), unread, p.size);
  }

  lemma Reassociate(a: seq<byte>, b: seq<byte>, n: nat)
    requires n <= |b|
    ensures a + b == (a + b[..n]) + b[n..]
  {
  }

  // ---------------------------------------------------------------- what arrives

  /** From the `from`-th call on no packet is unreadable and the connection does not break, and a long wait or a lost
      link comes only where complete messages of `ms` have arrived: a client may be idle between two messages as long
      as it likes. */
  ghost predicate Undisturbed(events: seq<Event>, from: nat, ms: seq<Message>)
    requires AllAcceptable(ms)
  {
    forall i :: from <= i < |events| ==>
      && !events[i].Faulty()
      && (events[i] == Empty(false) || (from + MAX_RETRIES <= i && StalledAt(events, i)) ==>
            AtMessageEnd(ms, |EncodeAll(ms)| - |DataOf(events[i + 1..])|))
  }

  /** Whoever is kept waiting after a part of the k-th message is disturbed. */
  lemma CutShort(events: seq<Event>, from: nat, i: nat, ms: seq<Message>, k: nat, rest: seq<byte>)
    requires from <= i < |events| && AllAcceptable(ms) && k < |ms| && AllAcceptable(ms[..k])
    requires EncodeAll(ms) == EncodeAll(ms[..k]) + rest
    requires || events[i].Faulty()
             || (0 < |rest| - |DataOf(events[i + 1..])| < |Encode(ms[k])|
                 && (events[i] == Empty(false) || (from + MAX_RETRIES <= i && StalledAt(events, i))))
    ensures !Undisturbed(events, from, ms)
  {
    hide Encode, Acceptable, EncodeAll, DataOf, StalledAt, AtMessageEnd;
    if !events[i].Faulty() {
      InsideMessage(ms, k, |rest| - |DataOf(events[i + 1..])|);
    }
  }

  lemma FlowingIsUndisturbed(events: seq<Event>, from: nat, ms: seq<Message>)
    requires AllAcceptable(ms) && Flowing(events)
    ensures Undisturbed(events, from, ms)
  {
  }

  // ---------------------------------------------------------------- replies

  /** `after` is `before` and one update with the rectangle that the damage of a view calls for, from the view's frame. */
  ghost predicate IsUpdate(s: Screen, before: seq<byte>, after: seq<byte>, r: Rect, onlyDamage: bool, f: Format,
                           damage: Option<Box>, frame: Frame)
  {
    var u := UpdateRect(r, onlyDamage, damage);
    && u.Some? && u.value.OnScreen(s) && u.value.Valid() && |frame| == s.Pixels()
    && after == before + UpdateHeader(u.value) + RawRectangle(s, frame, u.value, f)
  }

  lemma UpdateMade(s: Screen, before: seq<byte>, after: seq<byte>, r: Rect, onlyDamage: bool, f: Format,
                   damage: Option<Box>, frame: Frame, u: Rect)
    requires UpdateRect(r, onlyDamage, damage) == Some(u) && u.OnScreen(s) && u.Valid() && |frame| == s.Pixels()
    requires after == before + UpdateHeader(u) + RawRectangle(s, frame, u, f)
    ensures IsUpdate(s, before, after, r, onlyDamage, f, damage, frame)
  {
  }

  /** `wire` is `before` and the beginning of such an update. */
  ghost predicate BeginsUpdate(s: Screen, before: seq<byte>, wire: seq<byte>, r: Rect, onlyDamage: bool, f: Format,
                               damage: Option<Box>, frame: Frame)
  {
    before <= wire && exists after :: wire <= after && IsUpdate(s, before, after, r, onlyDamage, f, damage, frame)
  }

  lemma UpdateBegun(s: Screen, before: seq<byte>, wire: seq<byte>, r: Rect, onlyDamage: bool, f: Format,
                    damage: Option<Box>, frame: Frame, u: Rect)
    requires UpdateRect(r, onlyDamage, damage) == Some(u) && u.OnScreen(s) && u.Valid() && |frame| == s.Pixels()
    requires before <= wire <= before + UpdateHeader(u) + RawRectangle(s, frame, u, f)
    ensures BeginsUpdate(s, before, wire, r, onlyDamage, f, damage, frame)
  {
    UpdateMade(s, before, before + UpdateHeader(u) + RawRectangle(s, frame, u, f), r, onlyDamage, f, damage, frame, u);
  }

  /** `after` is `before` and one answer to `request`: an empty update when nothing of it is on the screen,
      else an update from what the capture module has published. */
  ghost predicate IsAnswer(s: Screen, before: seq<byte>, after: seq<byte>, request: Request, onlyDamage: bool, f: Format,
                           seen: State)
  {
    match Clip(s, request.rect)
    case None => after == before + EMPTY_UPDATE
    case Some(r) =>
      && seen.published < |seen.buffers|
      && IsUpdate(s, before, after, r, onlyDamage, f, seen.damage, seen.buffers[seen.published])
  }

  /** `wire` is `before` and the beginning of such an answer. */
  ghost predicate BeginsAnswer(s: Screen, before: seq<byte>, wire: seq<byte>, request: Request, onlyDamage: bool, f: Format,
                               seen: State)
  {
    before <= wire && exists after :: wire <= after && IsAnswer(s, before, after, request, onlyDamage, f, seen)
  }

  lemma EmptyBegun(s: Screen, before: seq<byte>, wire: seq<byte>, request: Request, onlyDamage: bool, f: Format, seen: State)
    requires Clip(s, request.rect).None? && before <= wire <= before + EMPTY_UPDATE
    ensures BeginsAnswer(s, before, wire, request, onlyDamage, f, seen)
  {
    assert IsAnswer(s, before, before + EMPTY_UPDATE, request, onlyDamage, f, seen);
  }

  lemma AnswerBegun(s: Screen, before: seq<byte>, wire: seq<byte>, request: Request, onlyDamage: bool, f: Format, seen: State)
    requires Clip(s, request.rect).Some? && seen.published < |seen.buffers|
    requires BeginsUpdate(s, before, wire, Clip(s, request.rect).value, onlyDamage, f, seen.damage, seen.buffers[seen.published])
    ensures BeginsAnswer(s, before, wire, request, onlyDamage, f, seen)
  {
    hide Clip, IsUpdate;
    var r := Clip(s, request.rect).value;
    var after :| wire <= after && IsUpdate(s, before, after, r, onlyDamage, f, seen.damage, seen.buffers[seen.published]);
    assert IsAnswer(s, before, after, request, onlyDamage, f, seen);
  }

  /** One answer: the request it answers is the last one of the first `handled` messages, the format the one they
      leave, and `seen` the capture module's state when the snapshot was taken; it takes the wire from `before` to
      `after`. */
  datatype Reply = Reply(handled: nat, onlyDamage: bool, seen: State, before: seq<byte>, after: seq<byte>)

  /** How many requests are settled by a reply: the one it answers and all earlier ones. */
  function Settled(log: seq<Message>, r: Reply): nat
    requires r.handled <= |log|
  {
    |RequestsIn(log[..r.handled])|
  }

  function Answers(log: seq<Message>, r: Reply): Request
    requires r.handled <= |log| && Settled(log, r) > 0
  {
    RequestsIn(log[..r.handled])[Settled(log, r) - 1]
  }

  ghost predicate IsReply(s: Screen, log: seq<Message>, r: Reply) {
    && r.handled <= |log| && Settled(log, r) > 0
    && IsAnswer(s, r.before, r.after, Answers(log, r), r.onlyDamage, FormatAfter(log[..r.handled]), r.seen)
  }

  /** The reply shows pixels: some of the request was on the screen. */
  ghost predicate Shows(s: Screen, log: seq<Message>, r: Reply) {
    r.handled <= |log| && Settled(log, r) > 0 && Clip(s, Answers(log, r).rect).Some?
  }

  ghost predicate AnyShows(s: Screen, log: seq<Message>, replies: seq<Reply>) {
    exists i :: 0 <= i < |replies| && Shows(s, log, replies[i])
  }

  /** The wire after the replies. */
  function EndOf(start: seq<byte>, replies: seq<Reply>): seq<byte> {
    if replies == [] then start else replies[|replies| - 1].after
  }

  /** How many requests the replies settle. */
  function SettledBy(log: seq<Message>, replies: seq<Reply>): nat {
    if replies == [] || replies[|replies| - 1].handled > |log| then 0 else Settled(log, replies[|replies| - 1])
  }

  /** From `start` on the wire holds exactly the replies: each answers the newest request of its time, no request is
      answered twice, and only after a first picture may an update be confined to the damage. */
  ghost predicate Transcript(s: Screen, log: seq<Message>, start: seq<byte>, replies: seq<Reply>)
    decreases |replies|
  {
    replies != [] ==>
      var earlier, r := replies[..|replies| - 1], replies[|replies| - 1];
      && Transcript(s, log, start, earlier)
      && IsReply(s, log, r) && r.before == EndOf(start, earlier)
      && SettledBy(log, earlier) < Settled(log, r)
      && (r.onlyDamage <==> Answers(log, r).incremental != 0 && AnyShows(s, log, earlier))
  }

  /** At most one reply per request. */
  lemma {:induction false} NoUnsolicitedUpdate(s: Screen, log: seq<Message>, start: seq<byte>, replies: seq<Reply>)
    requires Transcript(s, log, start, replies)
    ensures |replies| <= SettledBy(log, replies) <= |RequestsIn(log)|
  {
    if replies != [] {
      var r := replies[|replies| - 1];
      NoUnsolicitedUpdate(s, log, start, replies[..|replies| - 1]);
      RequestsGrow(log[..r.handled], log[r.handled..]);
      assert log[..r.handled] + log[r.handled..] == log;
    }
  }

  lemma {:induction false} RequestsGrow(log: seq<Message>, more: seq<Message>)
    ensures RequestsIn(log) <= RequestsIn(log + more)
  {
    if more == [] {
      assert log + more == log;
    } else {
      RequestsGrow(log, more[..|more| - 1]);
      assert (log + more)[..|log + more| - 1] == log + more[..|more| - 1];
    }
  }

  /** The last reply answers a request of the log. */
  lemma LastReplyAnswers(s: Screen, log: seq<Message>, start: seq<byte>, replies: seq<Reply>)
    requires Transcript(s, log, start, replies) && replies != []
    ensures var r := replies[|replies| - 1];
      && r.handled <= |log| && 0 < Settled(log, r) == SettledBy(log, replies) <= |RequestsIn(log)|
      && Answers(log, r) == RequestsIn(log)[Settled(log, r) - 1]
  {
    hide IsAnswer, RequestsIn, FormatAfter, AnyShows;
    var r := replies[|replies| - 1];
    assert IsReply(s, log, r);
    RequestsGrow(log[..r.handled], log[r.handled..]);
    assert log[..r.handled] + log[r.handled..] == log;
  }

  lemma AnyShowsStays(s: Screen, log: seq<Message>, longer: seq<Message>, replies: seq<Reply>)
    requires log <= longer && forall i :: 0 <= i < |replies| ==> replies[i].handled <= |log|
    ensures AnyShows(s, longer, replies) == AnyShows(s, log, replies)
  {
    hide RequestsIn, Clip;
    forall i | 0 <= i < |replies| ensures Shows(s, longer, replies[i]) == Shows(s, log, replies[i]) {
      assert longer[..replies[i].handled] == log[..replies[i].handled];
    }
  }

  lemma {:induction false} RepliesAreInLog(s: Screen, log: seq<Message>, start: seq<byte>, replies: seq<Reply>)
    requires Transcript(s, log, start, replies)
    ensures forall i :: 0 <= i < |replies| ==> replies[i].handled <= |log|
  {
    if replies != [] {
      var earlier := replies[..|replies| - 1];
      RepliesAreInLog(s, log, start, earlier);
      forall i | 0 <= i < |replies| - 1 ensures replies[i].handled <= |log| {
        assert replies[i] == earlier[i];
      }
    }
  }

  /** Messages handled later change nothing about the replies sent before. */
  lemma {:induction false} TranscriptStays(s: Screen, log: seq<Message>, longer: seq<Message>, start: seq<byte>, replies: seq<Reply>)
    requires log <= longer && Transcript(s, log, start, replies)
    ensures Transcript(s, longer, start, replies)
    ensures SettledBy(longer, replies) == SettledBy(log, replies)
    ensures AnyShows(s, longer, replies) == AnyShows(s, log, replies)
  {
    hide IsAnswer, RequestsIn, FormatAfter, Clip;
    RepliesAreInLog(s, log, start, replies);
    AnyShowsStays(s, log, longer, replies);
    if replies != [] {
      var earlier, r := replies[..|replies| - 1], replies[|replies| - 1];
      TranscriptStays(s, log, longer, start, earlier);
      assert longer[..r.handled] == log[..r.handled];
    }
  }

  /** One more reply, to the newest request of its time. */
  lemma TranscriptExtends(s: Screen, log: seq<Message>, start: seq<byte>, replies: seq<Reply>, r: Reply)
    requires Transcript(s, log, start, replies)
    requires IsReply(s, log, r) && r.before == EndOf(start, replies) && SettledBy(log, replies) < Settled(log, r)
    requires r.onlyDamage <==> Answers(log, r).incremental != 0 && AnyShows(s, log, replies)
    ensures Transcript(s, log, start, replies + [r])
    ensures SettledBy(log, replies + [r]) == Settled(log, r) && EndOf(start, replies + [r]) == r.after
    ensures AnyShows(s, log, replies + [r]) == (AnyShows(s, log, replies) || Shows(s, log, r))
  {
    var all := replies + [r];
    assert all[..|all| - 1] == replies;
    assert AnyShows(s, log, replies) ==> exists i :: 0 <= i < |replies| && Shows(s, log, all[i]);
    assert Shows(s, log, r) ==> Shows(s, log, all[|replies|]);
  }

  // ---------------------------------------------------------------- when requests are served

  /** One turn of the session's loop up to the point where it looks for input: how many calls had reported, what had
      been handled and replied and what the capture module held when it began, and calls, log and replies when it
      ended. */
  datatype Pass = Pass(from: nat, log: seq<Message>, replies: seq<Reply>, seen: State,
                       to: nat, done: seq<Message>, after: seq<Reply>)

  /** A request is neither answered nor overtaken by an answered one. */
  predicate Waiting(log: seq<Message>, replies: seq<Reply>) {
    SettledBy(log, replies) < |RequestsIn(log)|
  }

  function Newest(log: seq<Message>): Request
    requires RequestsIn(log) != []
  {
    RequestsIn(log)[|RequestsIn(log)| - 1]
  }

  ghost predicate OffScreen(s: Screen, r: Rect) {
    forall x, y :: s.Full().Contains(x, y) ==> !r.Contains(x, y)
  }

  predicate Viewable(seen: State) {
    seen.published < |seen.readers| && CanAcquire(seen)
  }

  /** Some pixel on the screen is owed. */
  ghost predicate AnyOwed(s: Screen, r: Rect, onlyDamage: bool, damage: Option<Box>) {
    exists x, y :: s.Full().Contains(x, y) && Owed(r, onlyDamage, damage, x, y)
  }

  /** The newest request waits, and there is something to answer: no pixel of it is on the screen, or a snapshot has
      pixels for it. */
  ghost predicate Answerable(s: Screen, log: seq<Message>, replies: seq<Reply>, seen: State) {
    && Waiting(log, replies)
    && var q := Newest(log);
       || OffScreen(s, q.rect)
       || (Viewable(seen) && AnyOwed(s, q.rect, q.incremental != 0 && AnyShows(s, log, replies), seen.damage))
  }

  /** What is answerable is answered by one reply, from what was held when the pass began; else nothing happens. */
  ghost predicate Serves(s: Screen, p: Pass) {
    if Answerable(s, p.log, p.replies, p.seen) then
      && p.from <= p.to && p.log <= p.done
      && |p.after| == |p.replies| + 1 && p.replies <= p.after
      && p.after[|p.replies|].handled == |p.log| && p.after[|p.replies|].seen == p.seen
    else
      p.from == p.to && p.log == p.done && p.replies == p.after
  }

  /** A pass that ended the session in the middle of an answer, the beginning of which is on the wire. */
  ghost predicate IsCutShort(s: Screen, p: Pass, start: seq<byte>, wire: seq<byte>) {
    && Answerable(s, p.log, p.replies, p.seen) && p.log <= p.done && p.replies == p.after
    && var q := Newest(p.log);
       BeginsAnswer(s, EndOf(start, p.replies), wire, q, q.incremental != 0 && AnyShows(s, p.log, p.replies),
                    FormatAfter(p.log), p.seen)
  }

  /** A pass has served what there was to serve, and since then there has been one wait in vain or one message. */
  ghost predicate TurnTo(s: Screen, events: seq<Event>, p: Pass, log: seq<Message>, replies: seq<Reply>, from: nat) {
    && Serves(s, p)
    && replies == p.after
    && (|| (log == p.done && from == p.to + 1 && p.to < |events| && events[p.to].Empty?)
        || (p.done <= log && |log| == |p.done| + 1 && p.to <= from))
  }

  ghost predicate Turn(s: Screen, events: seq<Event>, p: Pass, next: Pass) {
    TurnTo(s, events, p, next.log, next.replies, next.from)
  }

  /** The session has done nothing else. */
  ghost predicate History(s: Screen, events: seq<Event>, passes: seq<Pass>) {
    && passes != []
    && forall k :: 0 < k < |passes| ==> Turn(s, events, passes[k - 1], passes[k])
  }

  /** It began with these calls, messages and replies; `viewable` says that there was always a snapshot to take. */
  ghost predicate HistoryFrom(s: Screen, events: seq<Event>, passes: seq<Pass>,
                              from: nat, log: seq<Message>, replies: seq<Reply>, viewable: bool)
  {
    && History(s, events, passes)
    && passes[0].from == from && passes[0].log == log && passes[0].replies == replies
    && (viewable ==> forall k :: 0 <= k < |passes| ==> Viewable(passes[k].seen))
  }

  /** What holds between two passes, or before the first. */
  ghost predicate Underway(s: Screen, events: seq<Event>, passes: seq<Pass>,
                           from: nat, log: seq<Message>, replies: seq<Reply>, viewable: bool,
                           nowFrom: nat, nowLog: seq<Message>, nowReplies: seq<Reply>)
  {
    if passes == [] then nowFrom == from && nowLog == log && nowReplies == replies
    else
      && HistoryFrom(s, events, passes, from, log, replies, viewable)
      && TurnTo(s, events, passes[|passes| - 1], nowLog, nowReplies, nowFrom)
  }

  lemma NextPass(s: Screen, events: seq<Event>, passes: seq<Pass>,
                 from: nat, log: seq<Message>, replies: seq<Reply>, viewable: bool, p: Pass)
    requires Underway(s, events, passes, from, log, replies, viewable, p.from, p.log, p.replies)
    requires viewable ==> Viewable(p.seen)
    ensures HistoryFrom(s, events, passes + [p], from, log, replies, viewable)
  {
    hide TurnTo, Viewable;
  }

  /** Clipped, a request is off the screen or owed something just as it is as a whole. */
  lemma ClippedIsAnswerable(s: Screen, q: Rect, onlyDamage: bool, damage: Option<Box>)
    ensures Clip(s, q).None? <==> OffScreen(s, q)
    ensures Clip(s, q).Some? ==> (UpdateRect(Clip(s, q).value, onlyDamage, damage).Some? <==> AnyOwed(s, q, onlyDamage, damage))
  {
    hide Clip, UpdateRect;
    ClipIsIntersection(s, q);
    if Clip(s, q).Some? {
      var c := Clip(s, q).value;
      UpdateRectShowsWhatIsOwed(c, onlyDamage, damage);
      forall x, y ensures Owed(c, onlyDamage, damage, x, y) <==> s.Full().Contains(x, y) && Owed(q, onlyDamage, damage, x, y) {
        assert c.Contains(x, y) <==> q.Contains(x, y) && s.Full().Contains(x, y);
      }
    }
  }

  /** What a pass must find to answer the newest request whatever is damaged. */
  ghost predicate Certain(s: Screen, p: Pass) {
    && RequestsIn(p.log) != []
    && var q := Newest(p.log);
       OffScreen(s, q.rect) || (Viewable(p.seen) && (q.incremental == 0 || !AnyShows(s, p.log, p.replies)))
  }

  lemma CertainIsAnswerable(s: Screen, p: Pass)
    requires Certain(s, p) && Waiting(p.log, p.replies)
    ensures Answerable(s, p.log, p.replies, p.seen)
  {
    hide AnyShows, Waiting;
    var q := Newest(p.log);
    if !OffScreen(s, q.rect) {
      var x, y :| s.Full().Contains(x, y) && q.rect.Contains(x, y);
      assert Owed(q.rect, q.incremental != 0 && AnyShows(s, p.log, p.replies), p.seen.damage, x, y);
    }
  }

  /** Then no request is left waiting that was handled before the pass. */
  lemma ServedAfterPass(s: Screen, p: Pass)
    requires Serves(s, p) && Certain(s, p)
    ensures p.log <= p.done && SettledBy(p.done, p.after) >= |RequestsIn(p.log)|
  {
    hide Certain, RequestsIn, AnyShows, AnyOwed, OffScreen;
    if Waiting(p.log, p.replies) {
      CertainIsAnswerable(s, p);
      assert p.done[..|p.log|] == p.log;
    }
  }

  lemma {:induction false} PassesGrow(s: Screen, events: seq<Event>, passes: seq<Pass>, k: nat, n: nat)
    requires History(s, events, passes) && k < n < |passes|
    ensures passes[k].done <= passes[n].log && passes[k].after <= passes[n].replies
  {
    hide Answerable;
    assert Turn(s, events, passes[n - 1], passes[n]);
    if k < n - 1 {
      PassesGrow(s, events, passes, k, n - 1);
    }
  }

  lemma {:induction false} SettledGrows(s: Screen, log: seq<Message>, start: seq<byte>, replies: seq<Reply>, earlier: seq<Reply>)
    requires Transcript(s, log, start, replies) && earlier <= replies
    ensures SettledBy(log, earlier) <= SettledBy(log, replies)
  {
    hide IsAnswer, AnyShows, Answers, RequestsIn;
    if |earlier| < |replies| {
      SettledGrows(s, log, start, replies[..|replies| - 1], earlier);
    } else {
      assert earlier == replies;
    }
  }

  /** Each update request handled before such a pass is answered in the end, or overtaken by a later one that is. */
  lemma RequestsAreServed(s: Screen, events: seq<Event>, log: seq<Message>, start: seq<byte>, replies: seq<Reply>,
                          passes: seq<Pass>, k: nat, m: nat)
    requires Transcript(s, log, start, replies) && History(s, events, passes) && k < |passes|
    requires var last := passes[|passes| - 1]; last.log <= last.done == log && last.replies <= last.after == replies
    requires Serves(s, passes[k]) && Certain(s, passes[k])
    requires m < |passes[k].log|
    ensures m < |log|
    ensures log[m].UpdateRequest? ==> |RequestsIn(log[..m])| < SettledBy(log, replies)
  {
    hide Answerable, Serves, Certain, Transcript, History, RequestsIn;
    var p, last := passes[k], |passes| - 1;
    if k < last {
      PassesGrow(s, events, passes, k, last);
    }
    ServedAfterPass(s, p);
    SettledStays(p.done, log, p.after);
    SettledGrows(s, log, start, replies, p.after);
    EventAt(p.log, m);
    assert p.log[..m] == log[..m];
  }

  lemma SettledStays(log: seq<Message>, longer: seq<Message>, replies: seq<Reply>)
    requires log <= longer
    ensures SettledBy(log, replies) <= SettledBy(longer, replies)
  {
    if replies != [] && replies[|replies| - 1].handled <= |log| {
      assert longer[..replies[|replies| - 1].handled] == log[..replies[|replies| - 1].handled];
    }
  }
}
