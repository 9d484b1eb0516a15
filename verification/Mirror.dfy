/** The whole remote-display pipeline as one machine: GUIX drawing in two framebuffers, the display
    driver publishing finished frames, and the RFB server streaming snapshots to a client, in any
    interleaving. The capture module in the middle is the one of `CaptureRuns`.

    `client` holds, for every pixel sent in the current session, the value last sent. */
module Mirror {
  import opened Common
  import opened Rectangles
  import opened Capture
  import opened Display
  import R = CaptureRuns

  /** The server is the only reader. */
  const SERVER: nat := 0

  datatype Gui =
    | Drawing                  // GUIX may draw
    | Drawn(rect: Box)         // a frame is finished; display_toggle comes next
    | Publishing(rect: Box)    // scanned out, being copied to a snapshot
    | Published(rect: Box)     // snapshot committed; the area copy comes next

  datatype Server =
    | Idle
    | Streaming(update: Rect, covers: bool, chunk: map<nat, Pixel>, sent: set<nat>)
    | Releasing

  datatype World = World(
    sys: R.System,
    fb: seq<Frame>,
    draw: nat,
    front: nat,
    gui: Gui,
    toggles: nat,
    settled: bool,
    server: Server,
    sentFirst: bool,
    client: map<nat, Pixel>)

  datatype Step =
    | Draw(rect: Box, frame: Frame)
    | BeginToggle
    | CopyPixel(i: nat)
    | Commit
    | FinishToggle
    | StartUpdate(request: Rect, incremental: bool)
    | ReadPixel(i: nat)
    | Flush
    | FinishUpdate
    | ReleaseView
    | LoseClient

  predicate Initial(c: R.Config, w: World) {
    && R.Initial(c, w.sys)
    && |w.fb| == 2 && (forall k :: 0 <= k < 2 ==> |w.fb[k]| == c.screen.Pixels())
    && w.draw == 1 && w.front == 0 && w.gui == Drawing && w.toggles == 0 && !w.settled
    && w.server == Idle && !w.sentFirst && w.client == map[]
  }

  predicate Typed(c: R.Config, w: World) {
    && R.Typed(c, w.sys)
    && |w.fb| == 2 && (forall k :: 0 <= k < 2 ==> |w.fb[k]| == c.screen.Pixels())
    && w.draw < 2 && w.front < 2
    && (forall k :: 0 <= k < |w.sys.frames| ==> |w.sys.frames[k]| == c.screen.Pixels())
    && w.sys.held.Keys <= {SERVER}
    && (w.server.Idle? <==> SERVER !in w.sys.held)
    && (forall i :: i in w.client ==> i < c.screen.Pixels())
    && (w.server.Streaming? ==> forall i :: i in w.server.chunk ==> i < c.screen.Pixels())
  }

  predicate Requested(c: R.Config, r: Rect, i: nat)
    requires c.Valid()
  {
    i < c.screen.Pixels() && Covers(c.screen, r.ToBox(), i)
  }

  ghost predicate Enabled(c: R.Config, w: World, t: Step) {
    Typed(c, w) &&
    match t
    case Draw(rect, frame) =>
      w.gui == Drawing && |frame| == c.screen.Pixels()
      && AgreeOutside(c.screen, frame, w.fb[w.draw], Clamp(c.screen, rect))
    case BeginToggle => w.gui.Drawn? && R.Enabled(c, w.sys, R.Select(w.fb[w.draw], w.gui.rect))
    case CopyPixel(i) => w.gui.Publishing? && R.Enabled(c, w.sys, R.CopyPixel(i))
    case Commit => w.gui.Publishing? && R.Enabled(c, w.sys, R.Commit)
    case FinishToggle => w.gui.Published?
    case StartUpdate(request, _) => w.server.Idle? && Clip(c.screen, request).Some?
    case ReadPixel(i) => w.server.Streaming? && Requested(c, w.server.update, i)
    case Flush => w.server.Streaming?
    case FinishUpdate =>
      w.server.Streaming? && w.server.chunk == map[]
      && forall i :: Requested(c, w.server.update, i) ==> i in w.server.sent
    case ReleaseView => w.server.Releasing?
    case LoseClient => true
  }

  /** What RFB_Send_Framebuffer_Update decides once it holds a view. */
  function Decide(request: Rect, incremental: bool, sentFirst: bool, damage: Option<Box>): Server {
    match UpdateRect(request, incremental && sentFirst, damage)
    case None => Releasing
    case Some(u) => Streaming(u, CoversDirty(request, damage), map[], {})
  }

  ghost function Apply(c: R.Config, w: World, t: Step): World
    requires Enabled(c, w, t)
  {
    match t
    case Draw(rect, frame) => w.(fb := w.fb[w.draw := frame], gui := Drawn(rect))
    case BeginToggle =>
      var sys := R.Apply(c, w.sys, R.Select(w.fb[w.draw], w.gui.rect));
      w.(sys := sys, front := w.draw, toggles := w.toggles + 1,
         gui := if sys.writer.Copying? then Publishing(w.gui.rect) else Published(w.gui.rect))
    case CopyPixel(i) => w.(sys := R.Apply(c, w.sys, R.CopyPixel(i)))
    case Commit =>
      w.(sys := R.Apply(c, w.sys, R.Commit), gui := Published(w.gui.rect),
         settled := w.settled || Clamp(c.screen, w.gui.rect) == c.screen.Full())
    case FinishToggle =>
      w.(fb := w.fb[1 - w.draw := AreaCopied(c.screen, w.fb[1 - w.draw], w.fb[w.draw], w.gui.rect)],
         draw := 1 - w.draw, gui := Drawing)
    case StartUpdate(request, incremental) =>
      var sys := R.Apply(c, w.sys, R.Acquire(SERVER));
      if SERVER !in sys.held then w
      else w.(sys := sys,
              server := Decide(Clip(c.screen, request).value, incremental, w.sentFirst, sys.held[SERVER].view.damage))
    case ReadPixel(i) =>
      w.(server := w.server.(chunk := w.server.chunk[i := w.sys.cap.buffers[w.sys.held[SERVER].view.index][i]]))
    case Flush =>
      w.(client := w.client + w.server.chunk,
         server := w.server.(chunk := map[], sent := w.server.sent + w.server.chunk.Keys))
    case FinishUpdate =>
      w.(sys := if w.server.covers then R.Apply(c, w.sys, R.Acknowledge(SERVER)) else w.sys,
         server := Releasing, sentFirst := true)
    case ReleaseView => w.(sys := R.Apply(c, w.sys, R.Release(SERVER)), server := Idle)
    case LoseClient =>
      w.(client := map[], sentFirst := false, server := if w.server.Streaming? then Releasing else w.server)
  }

  // ---------------------------------------------------------------- the invariant

  predicate Damaged(c: R.Config, w: World, i: nat)
    requires c.Valid()
  {
    w.sys.cap.damage.Some? && Covers(c.screen, w.sys.cap.damage.value, i)
  }

  function Latest(w: World): Frame
    requires w.sys.frames != []
  {
    w.sys.frames[|w.sys.frames| - 1]
  }

  function Snapshot(c: R.Config, w: World): Frame
    requires Typed(c, w) && SERVER in w.sys.held
  {
    w.sys.frames[w.sys.held[SERVER].stamp - 1]
  }

  ghost predicate GuiOk(c: R.Config, w: World)
    requires Typed(c, w)
  {
    && (w.settled ==> w.sys.frames != [])
    && |w.sys.frames| + (if w.gui.Publishing? then 1 else 0) == w.toggles
    && (w.sys.writer.Copying? <==> w.gui.Publishing?)
    && (w.gui.Publishing? || w.gui.Published? <==> w.front == w.draw)
    && (!w.gui.Publishing? && w.sys.frames != [] ==> Latest(w) == w.fb[w.front])
    && (w.gui == Drawing && w.settled ==> w.fb[0] == w.fb[1] == Latest(w))
    && (w.gui.Drawn? && w.settled ==>
          Latest(w) == w.fb[1 - w.draw]
          && AgreeOutside(c.screen, w.fb[w.draw], w.fb[1 - w.draw], Clamp(c.screen, w.gui.rect)))
    && (w.gui.Publishing? ==>
          && w.sys.writer.source == w.fb[w.draw]
          && w.sys.writer.box == PublishedBox(c.screen, w.gui.rect)
          && (w.settled ==>
                Latest(w) == w.fb[1 - w.draw]
                && AgreeOutside(c.screen, w.fb[w.draw], w.fb[1 - w.draw], Clamp(c.screen, w.gui.rect))))
    && (w.gui.Published? ==>
          && w.sys.frames != [] && Latest(w) == w.fb[w.draw]
          && (w.settled ==> AgreeOutside(c.screen, w.fb[w.draw], w.fb[1 - w.draw], Clamp(c.screen, w.gui.rect))))
  }

  /** Outside the damage box the client, and the snapshot being sent, show the published frame. */
  ghost predicate MirrorOk(c: R.Config, w: World)
    requires Typed(c, w)
  {
    w.settled && w.sys.frames != [] ==>
      && (forall i :: i in w.client && !Damaged(c, w, i) ==> w.client[i] == Latest(w)[i])
      && (SERVER in w.sys.held ==>
            forall i :: 0 <= i < c.screen.Pixels() && !Damaged(c, w, i) ==> Snapshot(c, w)[i] == Latest(w)[i])
  }

  /** What is buffered or sent of the current update comes from the snapshot. */
  ghost predicate StreamOk(c: R.Config, w: World)
    requires Typed(c, w)
  {
    w.server.Streaming? ==>
      && (forall i :: i in w.server.chunk ==> w.server.chunk[i] == Snapshot(c, w)[i])
      && (forall i :: i in w.server.sent ==> i in w.client && w.client[i] == Snapshot(c, w)[i])
      && (w.server.covers ==>
            var d := w.sys.held[SERVER].view.damage;
            d.Some? && forall i :: 0 <= i < c.screen.Pixels() && Covers(c.screen, d.value, i) ==>
                         Requested(c, w.server.update, i))
  }

  ghost predicate Invariant(c: R.Config, w: World) {
    Typed(c, w) && R.Invariant(c, w.sys) && GuiOk(c, w) && MirrorOk(c, w) && StreamOk(c, w)
  }

  /** Fewer than 2^32 - 1 publications happen while the server holds one view. */
  predicate Timely(c: R.Config, w: World)
    requires Typed(c, w)
  {
    SERVER in w.sys.held ==> |w.sys.frames| - w.sys.held[SERVER].stamp < R.PERIOD
  }

  /** The GUI does not see what readers do. */
  lemma GuiUnaffected(c: R.Config, w: World, w': World)
    requires Typed(c, w) && Typed(c, w') && GuiOk(c, w)
    requires w' == w.(sys := w'.sys, server := w'.server, client := w'.client, sentFirst := w'.sentFirst)
    requires w'.sys == w.sys.(cap := w'.sys.cap, held := w'.sys.held, cleared := w'.sys.cleared)
    ensures GuiOk(c, w')
  {
    hide Clamp, PublishedBox, AgreeOutside;
  }

  /** The mirror depends on nothing but the capture history, its damage and what the client shows. */
  lemma MirrorUnaffected(c: R.Config, w: World, w': World)
    requires Typed(c, w) && Typed(c, w') && MirrorOk(c, w)
    requires w'.sys.frames == w.sys.frames && w'.sys.held == w.sys.held && w'.sys.cap.damage == w.sys.cap.damage
    requires w'.settled == w.settled && w'.client == w.client
    ensures MirrorOk(c, w')
  {
    hide Covers;
    assert forall i: nat :: Damaged(c, w', i) == Damaged(c, w, i);
  }

  /** Nor does the update being sent on more than the frames and the view. */
  lemma StreamUnaffected(c: R.Config, w: World, w': World)
    requires Typed(c, w) && Typed(c, w') && StreamOk(c, w)
    requires w'.sys.frames == w.sys.frames && w'.sys.held == w.sys.held
    requires w'.server == w.server && w'.client == w.client
    ensures StreamOk(c, w')
  {
    hide Covers, Requested;
  }

  // ---------------------------------------------------------------- GUI steps

  lemma DrawKeeps(c: R.Config, w: World, rect: Box, frame: Frame)
    requires Invariant(c, w) && Enabled(c, w, Draw(rect, frame))
    ensures Invariant(c, Apply(c, w, Draw(rect, frame)))
  {
    hide R.ReadersOk, R.AllHeldOk, R.PublishedOk, R.WriterOk;
  }

  lemma BeginToggleGui(c: R.Config, w: World)
    requires Typed(c, w) && GuiOk(c, w) && Enabled(c, w, BeginToggle) && FirstFree(w.sys.cap, 0) < c.count
    ensures var w' := Apply(c, w, BeginToggle); Typed(c, w') && GuiOk(c, w')
  {
    hide PublishedBox, Clamp, AgreeOutside, FirstFree;
  }

  lemma BeginToggleRest(c: R.Config, w: World)
    requires Typed(c, w) && MirrorOk(c, w) && StreamOk(c, w)
    requires Enabled(c, w, BeginToggle) && Typed(c, Apply(c, w, BeginToggle))
    ensures var w' := Apply(c, w, BeginToggle); MirrorOk(c, w') && StreamOk(c, w')
  {
    hide MirrorOk, StreamOk, FirstFree;
    MirrorUnaffected(c, w, Apply(c, w, BeginToggle));
    StreamUnaffected(c, w, Apply(c, w, BeginToggle));
  }

  lemma BeginToggleKeeps(c: R.Config, w: World)
    requires Invariant(c, w) && Enabled(c, w, BeginToggle) && 3 <= c.count
    ensures Invariant(c, Apply(c, w, BeginToggle))
  {
    hide R.Invariant, GuiOk, MirrorOk, StreamOk, FirstFree;
    OneHeld(w.sys.held.Keys);
    assert |w.sys.held| == |w.sys.held.Keys|;
    R.NoDroppedFrame(c, w.sys);
    R.SelectKeeps(c, w.sys, w.fb[w.draw], w.gui.rect);
    BeginToggleGui(c, w);
    BeginToggleRest(c, w);
  }

  lemma OneHeld(keys: set<nat>)
    requires keys <= {SERVER}
    ensures |keys| <= 1
  {
    if keys != {} { assert keys == {SERVER}; }
  }

  lemma CopyPixelGui(c: R.Config, w: World, i: nat)
    requires Typed(c, w) && GuiOk(c, w) && Enabled(c, w, CopyPixel(i))
    ensures var w' := Apply(c, w, CopyPixel(i)); Typed(c, w') && GuiOk(c, w')
  {
    hide PublishedBox, Clamp, AgreeOutside;
  }

  lemma CopyPixelRest(c: R.Config, w: World, i: nat)
    requires Typed(c, w) && MirrorOk(c, w) && StreamOk(c, w)
    requires Enabled(c, w, CopyPixel(i)) && Typed(c, Apply(c, w, CopyPixel(i)))
    ensures var w' := Apply(c, w, CopyPixel(i)); MirrorOk(c, w') && StreamOk(c, w')
  {
    hide MirrorOk, StreamOk;
    MirrorUnaffected(c, w, Apply(c, w, CopyPixel(i)));
    StreamUnaffected(c, w, Apply(c, w, CopyPixel(i)));
  }

  lemma CopyPixelKeeps(c: R.Config, w: World, i: nat)
    requires Invariant(c, w) && Enabled(c, w, CopyPixel(i))
    ensures Invariant(c, Apply(c, w, CopyPixel(i)))
  {
    hide R.Invariant, GuiOk, MirrorOk, StreamOk;
    R.CopyKeeps(c, w.sys, i);
    CopyPixelGui(c, w, i);
    CopyPixelRest(c, w, i);
  }

  lemma CommitGui(c: R.Config, w: World)
    requires Typed(c, w) && GuiOk(c, w) && Enabled(c, w, Commit)
    ensures var w' := Apply(c, w, Commit); Typed(c, w') && GuiOk(c, w')
  {
    if Clamp(c.screen, w.gui.rect) == c.screen.Full() {
      forall i | 0 <= i < c.screen.Pixels() ensures Covers(c.screen, c.screen.Full(), i) {
        FullCovers(c.screen, i);
      }
    }
  }

  /** A commit keeps the damage that was there, adds the published box, and changes no pixel outside it. */
  lemma CommitMirror(c: R.Config, w: World)
    requires Typed(c, w) && GuiOk(c, w) && MirrorOk(c, w) && Enabled(c, w, Commit)
    ensures var w' := Apply(c, w, Commit); Typed(c, w') && MirrorOk(c, w')
  {
    var w' := Apply(c, w, Commit);
    var clamped := Clamp(c.screen, w.gui.rect);
    var box := w.sys.writer.box;
    assert w'.sys.cap.damage == Grown(w.sys.cap.damage, box);
    if w'.settled {
      forall i | 0 <= i < c.screen.Pixels() && !Damaged(c, w', i)
        ensures !Damaged(c, w, i) && w.settled && Latest(w')[i] == Latest(w)[i]
      {
        FullCovers(c.screen, i);
        assert !Covers(c.screen, box, i);
      }
    }
  }

  lemma CommitStream(c: R.Config, w: World)
    requires Typed(c, w) && StreamOk(c, w) && Enabled(c, w, Commit) && Typed(c, Apply(c, w, Commit))
    ensures StreamOk(c, Apply(c, w, Commit))
  {
    hide Covers, PublishedBox, Clamp;
  }

  lemma CommitKeeps(c: R.Config, w: World)
    requires Invariant(c, w) && Enabled(c, w, Commit)
    ensures Invariant(c, Apply(c, w, Commit))
  {
    hide R.Invariant, GuiOk, MirrorOk, StreamOk;
    R.CommitKeeps(c, w.sys);
    CommitGui(c, w);
    CommitMirror(c, w);
    CommitStream(c, w);
  }

  lemma FinishToggleGui(c: R.Config, w: World)
    requires Typed(c, w) && GuiOk(c, w) && Enabled(c, w, FinishToggle)
    ensures var w' := Apply(c, w, FinishToggle); Typed(c, w') && GuiOk(c, w')
  {
    if w.settled {
      AreaCopyReconciles(c.screen, w.fb[1 - w.draw], w.fb[w.draw], w.gui.rect);
    }
  }

  lemma FinishToggleRest(c: R.Config, w: World)
    requires Typed(c, w) && MirrorOk(c, w) && StreamOk(c, w)
    requires Enabled(c, w, FinishToggle) && Typed(c, Apply(c, w, FinishToggle))
    ensures var w' := Apply(c, w, FinishToggle); MirrorOk(c, w') && StreamOk(c, w')
  {
    hide AreaCopied, MirrorOk, StreamOk;
    MirrorUnaffected(c, w, Apply(c, w, FinishToggle));
    StreamUnaffected(c, w, Apply(c, w, FinishToggle));
  }

  lemma FinishToggleKeeps(c: R.Config, w: World)
    requires Invariant(c, w) && Enabled(c, w, FinishToggle)
    ensures Invariant(c, Apply(c, w, FinishToggle))
  {
    hide R.Invariant, GuiOk, MirrorOk, StreamOk;
    FinishToggleGui(c, w);
    FinishToggleRest(c, w);
  }

  // ---------------------------------------------------------------- server steps

  /** The update decided on brings exactly the requested pixels, or the damaged ones among them, and there is none only
      when there are no such pixels. */
  lemma DecidesWhatIsOwed(c: R.Config, request: Rect, incremental: bool, sentFirst: bool, damage: Option<Box>, i: nat)
    requires c.Valid() && request.OnScreen(c.screen) && i < c.screen.Pixels()
    ensures var k := Decide(request, incremental, sentFirst, damage);
      k.Streaming? && Requested(c, k.update, i)
      <==> Owed(request, incremental && sentFirst, damage, i % c.screen.width, i / c.screen.width)
  {
    UpdateRectShowsWhatIsOwed(request, incremental && sentFirst, damage);
    hide UpdateRect, Owed, CoversDirty;
    var u := UpdateRect(request, incremental && sentFirst, damage);
    if u.Some? {
      BoxContains(u.value, i % c.screen.width, i / c.screen.width);
    }
  }

  /** What is decided covers the damage whenever it says so. */
  lemma DecideCovers(c: R.Config, request: Rect, incremental: bool, sentFirst: bool, d: Box, i: nat)
    requires c.Valid() && i < c.screen.Pixels() && Covers(c.screen, d, i)
    ensures var k := Decide(request, incremental, sentFirst, Some(d));
      k.Streaming? && k.covers ==> Covers(c.screen, k.update.ToBox(), i)
  {
  }

  /** A view is of the latest frame. */
  lemma StartUpdateMirror(c: R.Config, w: World, request: Rect, incremental: bool)
    requires Typed(c, w) && GuiOk(c, w) && MirrorOk(c, w)
    requires w.server.Idle? && Clip(c.screen, request).Some?
    requires w.sys.cap.ready ==> w.sys.frames != []
    ensures var w' := Apply(c, w, StartUpdate(request, incremental));
      Typed(c, w') && GuiOk(c, w') && MirrorOk(c, w')
  {
    hide Decide, Clip, Covers, GuiOk;
    var w' := Apply(c, w, StartUpdate(request, incremental));
    StartUpdateTyped(c, w, request, incremental);
    GuiUnaffected(c, w, w');
    if SERVER in w'.sys.held {
      assert Snapshot(c, w') == Latest(w');
    }
  }

  lemma StartUpdateTyped(c: R.Config, w: World, request: Rect, incremental: bool)
    requires Typed(c, w) && w.server.Idle? && Clip(c.screen, request).Some? && (w.sys.cap.ready ==> w.sys.frames != [])
    ensures Typed(c, Apply(c, w, StartUpdate(request, incremental)))
  {
    hide UpdateRect, CoversDirty, Clip;
  }

  lemma StartUpdateStream(c: R.Config, w: World, request: Rect, incremental: bool)
    requires Typed(c, w) && w.server.Idle? && Clip(c.screen, request).Some?
    requires Typed(c, Apply(c, w, StartUpdate(request, incremental)))
    ensures StreamOk(c, Apply(c, w, StartUpdate(request, incremental)))
  {
    var w' := Apply(c, w, StartUpdate(request, incremental));
    if w'.server.Streaming? && w'.server.covers {
      var d := w'.sys.held[SERVER].view.damage;
      forall i | 0 <= i < c.screen.Pixels() && Covers(c.screen, d.value, i)
        ensures Requested(c, w'.server.update, i)
      {
        DecideCovers(c, Clip(c.screen, request).value, incremental, w.sentFirst, d.value, i);
      }
    }
  }

  lemma StartUpdateKeeps(c: R.Config, w: World, request: Rect, incremental: bool)
    requires Invariant(c, w) && Enabled(c, w, StartUpdate(request, incremental))
    ensures Invariant(c, Apply(c, w, StartUpdate(request, incremental)))
  {
    R.AcquireKeeps(c, w.sys, SERVER);
    StartUpdateMirror(c, w, request, incremental);
    StartUpdateStream(c, w, request, incremental);
  }

  lemma HeldIsOk(c: R.Config, w: World)
    requires Typed(c, w) && R.Invariant(c, w.sys) && SERVER in w.sys.held
    ensures R.HeldOk(c, w.sys, w.sys.held[SERVER])
  {
  }

  /** The pixel read is one of the snapshot. */
  lemma ReadPixelStream(c: R.Config, w: World, i: nat)
    requires Typed(c, w) && StreamOk(c, w) && Enabled(c, w, ReadPixel(i))
    requires R.HeldOk(c, w.sys, w.sys.held[SERVER])
    ensures var w' := Apply(c, w, ReadPixel(i)); Typed(c, w') && StreamOk(c, w')
  {
  }

  lemma ReadPixelKeeps(c: R.Config, w: World, i: nat)
    requires Invariant(c, w) && Enabled(c, w, ReadPixel(i))
    ensures Invariant(c, Apply(c, w, ReadPixel(i)))
  {
    hide R.Invariant, GuiOk, MirrorOk, StreamOk, R.HeldOk;
    HeldIsOk(c, w);
    ReadPixelStream(c, w, i);
    GuiUnaffected(c, w, Apply(c, w, ReadPixel(i)));
    MirrorUnaffected(c, w, Apply(c, w, ReadPixel(i)));
  }

  lemma FlushStream(c: R.Config, w: World)
    requires Typed(c, w) && StreamOk(c, w) && Enabled(c, w, Flush)
    ensures var w' := Apply(c, w, Flush); Typed(c, w') && StreamOk(c, w')
  {
    var w' := Apply(c, w, Flush);
    forall i | i in w'.server.sent ensures i in w'.client && w'.client[i] == Snapshot(c, w')[i] {
      assert i in w.server.sent || i in w.server.chunk;
    }
  }

  lemma FlushMirror(c: R.Config, w: World)
    requires Typed(c, w) && MirrorOk(c, w) && StreamOk(c, w) && Enabled(c, w, Flush)
    ensures var w' := Apply(c, w, Flush); Typed(c, w') && MirrorOk(c, w')
  {
    hide Covers;
    var w' := Apply(c, w, Flush);
    assert forall i: nat :: Damaged(c, w', i) == Damaged(c, w, i);
  }

  lemma FlushKeeps(c: R.Config, w: World)
    requires Invariant(c, w) && Enabled(c, w, Flush)
    ensures Invariant(c, Apply(c, w, Flush))
  {
    hide R.Invariant, GuiOk, MirrorOk, StreamOk;
    FlushStream(c, w);
    FlushMirror(c, w);
    GuiUnaffected(c, w, Apply(c, w, Flush));
  }

  lemma FinishUpdateGui(c: R.Config, w: World)
    requires Typed(c, w) && GuiOk(c, w) && Enabled(c, w, FinishUpdate)
    ensures var w' := Apply(c, w, FinishUpdate); Typed(c, w') && GuiOk(c, w') && StreamOk(c, w')
  {
    hide GuiOk, Covers, Requested;
    GuiUnaffected(c, w, Apply(c, w, FinishUpdate));
  }

  lemma FinishUpdateMirror(c: R.Config, w: World)
    requires Typed(c, w) && MirrorOk(c, w) && Enabled(c, w, FinishUpdate) && Typed(c, Apply(c, w, FinishUpdate))
    requires w.settled ==> w.sys.frames != []
    requires w.server.covers && R.Effective(w.sys, SERVER) ==>
               && w.sys.held[SERVER].stamp == |w.sys.frames|
               && forall i :: 0 <= i < c.screen.Pixels() && Damaged(c, w, i) ==>
                    i in w.client && w.client[i] == Latest(w)[i]
    ensures MirrorOk(c, Apply(c, w, FinishUpdate))
  {
    var w' := Apply(c, w, FinishUpdate);
    if w.server.covers && R.Effective(w.sys, SERVER) {
      assert Snapshot(c, w') == Latest(w');
      forall i | i in w'.client && !Damaged(c, w', i) ensures w.settled ==> w'.client[i] == Latest(w')[i] {
        assert Damaged(c, w, i) || !Damaged(c, w, i);
      }
    } else {
      MirrorUnaffected(c, w, w');
    }
  }

  lemma FinishUpdateKeeps(c: R.Config, w: World)
    requires Invariant(c, w) && Enabled(c, w, FinishUpdate) && Timely(c, w)
    ensures Invariant(c, Apply(c, w, FinishUpdate))
  {
    hide R.Invariant, MirrorOk, StreamOk, Damaged, PublishedBox, Clamp, AgreeOutside;
    if w.server.covers {
      R.AcknowledgeKeeps(c, w.sys, SERVER);
      if R.Effective(w.sys, SERVER) {
        R.AcknowledgeClearsOnlySeenDamage(c, w.sys, SERVER);
        DamageWasSeen(c, w);
      }
    }
    FinishUpdateGui(c, w);
    FinishUpdateMirror(c, w);
  }

  /** Every box of a hull is seen, so every pixel of the hull is. */
  lemma HullIsSeen(s: Screen, boxes: seq<Box>, seen: Option<Box>, i: nat)
    requires s.Valid() && i < s.Pixels() && HullOf(boxes).Some? && Covers(s, HullOf(boxes).value, i)
    requires forall k :: 0 <= k < |boxes| ==> seen.Some? && seen.value.Includes(boxes[k])
    ensures seen.Some? && Covers(s, seen.value, i)
  {
    assert boxes != [];
    assert seen.Some? && seen.value.Includes(boxes[0]);
    HullOfIsLeast(boxes, seen.value);
  }

  lemma DamageIsInView(c: R.Config, w: World, i: nat)
    requires Typed(c, w) && R.Invariant(c, w.sys) && SERVER in w.sys.held && Timely(c, w)
    requires R.Effective(w.sys, SERVER) && i < c.screen.Pixels() && Damaged(c, w, i)
    ensures w.sys.held[SERVER].view.damage.Some? && Covers(c.screen, w.sys.held[SERVER].view.damage.value, i)
  {
    hide Covers, R.ReadersOk, R.AllHeldOk, R.WriterOk;
    R.AcknowledgeClearsOnlySeenDamage(c, w.sys, SERVER);
    HullIsSeen(c.screen, w.sys.boxes[w.sys.cleared..], w.sys.held[SERVER].view.damage, i);
  }

  /** When the acknowledgement takes effect, every damaged pixel has just been sent. */
  lemma DamageWasSeen(c: R.Config, w: World)
    requires Invariant(c, w) && Enabled(c, w, FinishUpdate) && Timely(c, w)
    requires w.server.covers && R.Effective(w.sys, SERVER)
    ensures forall i :: 0 <= i < c.screen.Pixels() && Damaged(c, w, i) ==>
              i in w.client && w.client[i] == Latest(w)[i]
  {
    hide R.Invariant, GuiOk, MirrorOk, Covers, Damaged, Requested;
    R.AcknowledgeClearsOnlySeenDamage(c, w.sys, SERVER);
    forall i | 0 <= i < c.screen.Pixels() && Damaged(c, w, i) ensures i in w.client && w.client[i] == Latest(w)[i] {
      DamageIsInView(c, w, i);
      assert Requested(c, w.server.update, i);
    }
  }

  /** An update that ends has shown the client every pixel of its rectangle as it is in the snapshot. */
  lemma FinishedUpdateIsShown(c: R.Config, w: World, i: nat)
    requires Invariant(c, w) && Enabled(c, w, FinishUpdate) && Requested(c, w.server.update, i)
    ensures var w' := Apply(c, w, FinishUpdate);
      i in w'.client && i < |Snapshot(c, w)| && w'.client[i] == Snapshot(c, w)[i]
  {
    hide GuiOk, MirrorOk, R.Invariant, Requested;
    assert i in w.server.sent;
  }

  /** If it covers the damage and nothing was published meanwhile, no damage is left and the snapshot is the latest frame. */
  lemma FinishedUpdateClearsDamage(c: R.Config, w: World)
    requires Invariant(c, w) && Enabled(c, w, FinishUpdate)
    requires w.server.covers && w.sys.held[SERVER].stamp == |w.sys.frames|
    ensures var w' := Apply(c, w, FinishUpdate); w'.sys.cap.damage == None && Snapshot(c, w) == Latest(w')
  {
    hide GuiOk, MirrorOk, StreamOk, R.ReadersOk, R.WriterOk;
    R.AcknowledgeTakesEffectExactlyWhen(c, w.sys, SERVER);
  }

  lemma ReleaseViewGui(c: R.Config, w: World)
    requires Typed(c, w) && GuiOk(c, w) && Enabled(c, w, ReleaseView)
    ensures var w' := Apply(c, w, ReleaseView); Typed(c, w') && GuiOk(c, w') && StreamOk(c, w')
  {
    hide GuiOk;
    GuiUnaffected(c, w, Apply(c, w, ReleaseView));
  }

  lemma ReleaseViewMirror(c: R.Config, w: World)
    requires Typed(c, w) && MirrorOk(c, w) && Enabled(c, w, ReleaseView) && Typed(c, Apply(c, w, ReleaseView))
    ensures MirrorOk(c, Apply(c, w, ReleaseView))
  {
    hide Covers;
    assert forall i: nat :: Damaged(c, Apply(c, w, ReleaseView), i) == Damaged(c, w, i);
  }

  lemma ReleaseViewKeeps(c: R.Config, w: World)
    requires Invariant(c, w) && Enabled(c, w, ReleaseView)
    ensures Invariant(c, Apply(c, w, ReleaseView))
  {
    hide R.Invariant, GuiOk, MirrorOk, StreamOk;
    R.ReleaseKeeps(c, w.sys, SERVER);
    ReleaseViewGui(c, w);
    ReleaseViewMirror(c, w);
  }

  lemma LoseClientRest(c: R.Config, w: World)
    requires Typed(c, w) && MirrorOk(c, w)
    ensures var w' := Apply(c, w, LoseClient); Typed(c, w') && MirrorOk(c, w') && StreamOk(c, w')
  {
    hide Covers;
    assert forall i: nat :: Damaged(c, Apply(c, w, LoseClient), i) == Damaged(c, w, i);
  }

  lemma LoseClientKeeps(c: R.Config, w: World)
    requires Invariant(c, w)
    ensures Invariant(c, Apply(c, w, LoseClient))
  {
    hide R.Invariant, GuiOk, MirrorOk, StreamOk;
    LoseClientRest(c, w);
    GuiUnaffected(c, w, Apply(c, w, LoseClient));
  }

  lemma StepKeeps(c: R.Config, w: World, t: Step)
    requires Invariant(c, w) && Enabled(c, w, t) && Timely(c, w) && 3 <= c.count
    ensures Invariant(c, Apply(c, w, t))
  {
    hide Invariant, Enabled, Apply;
    match t
    case Draw(rect, frame) => DrawKeeps(c, w, rect, frame);
    case BeginToggle => BeginToggleKeeps(c, w);
    case CopyPixel(i) => CopyPixelKeeps(c, w, i);
    case Commit => CommitKeeps(c, w);
    case FinishToggle => FinishToggleKeeps(c, w);
    case StartUpdate(request, incremental) => StartUpdateKeeps(c, w, request, incremental);
    case ReadPixel(i) => ReadPixelKeeps(c, w, i);
    case Flush => FlushKeeps(c, w);
    case FinishUpdate => FinishUpdateKeeps(c, w);
    case ReleaseView => ReleaseViewKeeps(c, w);
    case LoseClient => LoseClientKeeps(c, w);
  }

  // ---------------------------------------------------------------- whole runs

  ghost predicate Follows(c: R.Config, w: World, w': World) {
    exists t :: Enabled(c, w, t) && w' == Apply(c, w, t)
  }

  /** A run with at least three snapshot buffers in which no view outlives 2^32 - 2 publications. */
  ghost predicate IsRun(c: R.Config, worlds: seq<World>) {
    && c.Valid() && 3 <= c.count
    && worlds != [] && Initial(c, worlds[0])
    && (forall k :: 0 < k < |worlds| ==> Follows(c, worlds[k - 1], worlds[k]))
    && (forall k :: 0 <= k < |worlds| ==> Typed(c, worlds[k]) ==> Timely(c, worlds[k]))
  }

  lemma {:induction false} RunsKeepInvariant(c: R.Config, worlds: seq<World>, k: nat)
    requires IsRun(c, worlds) && k < |worlds|
    ensures Invariant(c, worlds[k])
  {
    if k == 0 {
      R.InitialInvariant(c, worlds[0].sys);
    } else {
      RunsKeepInvariant(c, worlds, k - 1);
      assert Follows(c, worlds[k - 1], worlds[k]);
      var t :| Enabled(c, worlds[k - 1], t) && worlds[k] == Apply(c, worlds[k - 1], t);
      StepKeeps(c, worlds[k - 1], t);
    }
  }

  /** From the commit of the first full-screen toggle on, in every reachable state - also in the middle
      of an update and of a publication - every pixel sent in this session and not in the damage box has
      the value it has in the published buffer. */
  lemma ClientMirrorsPublishedFrame(c: R.Config, worlds: seq<World>, k: nat, i: nat)
    requires IsRun(c, worlds) && k < |worlds|
    requires worlds[k].settled && i in worlds[k].client && !Damaged(c, worlds[k], i)
    ensures var w := worlds[k];
      && w.sys.cap.published < |w.sys.cap.buffers| && i < |w.sys.cap.buffers[w.sys.cap.published]|
      && w.client[i] == w.sys.cap.buffers[w.sys.cap.published][i]
  {
    hide Damaged, StreamOk, R.ReadersOk, R.AllHeldOk, R.WriterOk;
    RunsKeepInvariant(c, worlds, k);
  }

  /** Every display_toggle that began is in the capture history or is being copied: none is dropped,
      and what the capture module publishes last is the scanned-out framebuffer. */
  lemma EveryToggleIsPublished(c: R.Config, worlds: seq<World>, k: nat)
    requires IsRun(c, worlds) && k < |worlds|
    ensures var w := worlds[k];
      && w.front < |w.fb|
      && |w.sys.frames| + (if w.gui.Publishing? then 1 else 0) == w.toggles
      && (w.gui.Publishing? ==> w.sys.writer.Copying? && w.sys.writer.source == w.fb[w.front])
      && (!w.gui.Publishing? && w.toggles > 0 ==> w.sys.frames != [] && Latest(w) == w.fb[w.front])
  {
    RunsKeepInvariant(c, worlds, k);
  }

  /** Whenever GUIX may draw, it draws in the framebuffer that is not scanned out, and once settled both are pixel-equal. */
  lemma FramebuffersAgree(c: R.Config, worlds: seq<World>, k: nat)
    requires IsRun(c, worlds) && k < |worlds| && worlds[k].gui == Drawing
    ensures worlds[k].draw != worlds[k].front
    ensures |worlds[k].fb| == 2
    ensures worlds[k].settled ==> worlds[k].fb[0] == worlds[k].fb[1]
  {
    RunsKeepInvariant(c, worlds, k);
  }

  /** With no damage left, and no frame just being copied, a client that has been sent every pixel shows exactly
      the screen. */
  lemma UndamagedClientShowsTheScreen(c: R.Config, worlds: seq<World>, k: nat)
    requires IsRun(c, worlds) && k < |worlds|
    requires worlds[k].settled && !worlds[k].gui.Publishing? && worlds[k].sys.cap.damage == None
    requires worlds[k].client.Keys == R.UpTo(c.screen.Pixels())
    ensures var w := worlds[k];
      w.front < |w.fb| && |w.fb[w.front]| == c.screen.Pixels()
      && forall i :: 0 <= i < c.screen.Pixels() ==> i in w.client && w.client[i] == w.fb[w.front][i]
  {
    RunsKeepInvariant(c, worlds, k);
  }
}
