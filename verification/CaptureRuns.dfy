/** Every interleaving of one publisher with any number of readers of the capture module.

    Each lock region of app_vnc_frame.c is one step and the unlocked copy is one step per
    pixel, in any order. The last three fields of `System` record the history of the run:
    the frames and boxes committed so far and how many of them the last effective
    acknowledgement cleared. */
module CaptureRuns {
  import opened Common
  import opened Rectangles
  import opened Capture

  datatype Config = Config(screen: Screen, count: nat) {
    predicate Valid() {
      screen.Valid() && 0 < count < 0x100
    }
  }

  datatype Writer =
    | Resting
    | Copying(slot: nat, source: Frame, todo: set<nat>, box: Box)

  /** A view, with the number of publications made before it was acquired (`stamp`) and how many
      of those an acknowledgement had already cleared (`mark`). */
  datatype Holding = Holding(view: View, stamp: nat, mark: nat)

  datatype System = System(
    cap: State,
    writer: Writer,
    held: map<nat, Holding>,
    frames: seq<Frame>,
    boxes: seq<Box>,
    cleared: nat)

  datatype Step =
    | Select(source: Frame, rect: Box)
    | CopyPixel(i: nat)
    | Commit
    | Acquire(reader: nat)
    | Acknowledge(reader: nat)
    | Release(reader: nat)

  predicate Initial(c: Config, s: System) {
    && s.cap.Shaped(c.count, c.screen.Pixels())
    && s.cap.readers == seq(c.count, i => 0)
    && !s.cap.ready && s.cap.generation == 0 && s.cap.damage == None
    && s.writer == Resting && s.held == map[] && s.frames == [] && s.boxes == [] && s.cleared == 0
  }

  /** The state has the shape of the C variables: indices in range, buffers of the right size. */
  predicate Typed(c: Config, s: System) {
    && c.Valid()
    && s.cap.Shaped(c.count, c.screen.Pixels())
    && |s.frames| == |s.boxes| && s.cleared <= |s.boxes|
    && (s.writer.Copying? ==>
          && s.writer.slot < c.count && |s.writer.source| == c.screen.Pixels()
          && s.writer.todo <= UpTo(c.screen.Pixels()))
    && (forall r :: r in s.held ==>
          var h := s.held[r];
          h.view.index < c.count && h.mark <= h.stamp <= |s.frames| && 0 < h.stamp)
  }

  predicate Enabled(c: Config, s: System, t: Step) {
    Typed(c, s) &&
    match t
    case Select(source, _) => s.writer.Resting? && |source| == c.screen.Pixels()
    case CopyPixel(i) => s.writer.Copying? && i in s.writer.todo
    case Commit => s.writer.Copying? && s.writer.todo == {}
    case Acquire(r) => r !in s.held
    case Acknowledge(r) => r in s.held
    case Release(r) => r in s.held
  }

  /** The naturals below `n`. */
  function UpTo(n: nat): (r: set<nat>)
    ensures forall i :: i in r <==> 0 <= i < n
  {
    if n == 0 then {} else UpTo(n - 1) + {n - 1}
  }

  function Apply(c: Config, s: System, t: Step): System
    requires Enabled(c, s, t)
  {
    match t
    case Select(source, rect) =>
      var slot := FirstFree(s.cap, 0);
      if slot == c.count then s
      else s.(writer := Copying(slot, source, UpTo(c.screen.Pixels()), PublishedBox(c.screen, rect)))
    case CopyPixel(i) =>
      var w := s.writer;
      s.(cap := s.cap.(buffers := s.cap.buffers[w.slot := s.cap.buffers[w.slot][i := w.source[i]]]),
         writer := w.(todo := w.todo - {i}))
    case Commit =>
      s.(cap := Committed(s.cap, s.writer.slot, s.writer.box),
         writer := Resting,
         frames := s.frames + [s.writer.source],
         boxes := s.boxes + [s.writer.box])
    case Acquire(r) =>
      if !CanAcquire(s.cap) then s
      else s.(cap := Acquired(s.cap),
              held := s.held[r := Holding(ViewOf(s.cap), |s.frames|, s.cleared)])
    case Acknowledge(r) =>
      var after := Acknowledged(s.cap, s.held[r].view.generation);
      s.(cap := after, cleared := if Effective(s, r) then |s.frames| else s.cleared)
    case Release(r) =>
      s.(cap := Released(s.cap, s.held[r].view.index), held := s.held - {r})
  }

  /** The acknowledgement of reader `r` matches the current generation. */
  predicate Effective(s: System, r: nat)
    requires r in s.held
  {
    s.cap.ready && s.cap.generation == s.held[r].view.generation
  }

  /** The generation after `n` publications. */
  function GenerationOf(n: nat): nat {
    if n == 0 then 0 else NextGeneration(GenerationOf(n - 1))
  }

  function HoldersOf(held: map<nat, Holding>, index: nat): set<nat> {
    set r | r in held && held[r].view.index == index
  }

  ghost predicate HeldOk(c: Config, s: System, h: Holding)
    requires Typed(c, s) && h.view.index < c.count && h.mark <= h.stamp <= |s.frames| && 0 < h.stamp
  {
    && h.mark <= s.cleared
    && s.cap.buffers[h.view.index] == s.frames[h.stamp - 1]
    && h.view.generation == GenerationOf(h.stamp)
    && h.view.damage == HullOf(s.boxes[h.mark..h.stamp])
  }

  ghost predicate AllHeldOk(c: Config, s: System)
    requires Typed(c, s)
  {
    forall r :: r in s.held ==> HeldOk(c, s, s.held[r])
  }

  ghost predicate ReadersOk(c: Config, s: System)
    requires Typed(c, s)
  {
    forall i :: 0 <= i < c.count ==> s.cap.readers[i] == |HoldersOf(s.held, i)| <= MAX_READERS
  }

  ghost predicate WriterOk(c: Config, s: System)
    requires Typed(c, s)
  {
    s.writer.Copying? ==>
      && Free(s.cap, s.writer.slot)
      && (forall j :: 0 <= j < c.screen.Pixels() && j !in s.writer.todo ==>
            s.cap.buffers[s.writer.slot][j] == s.writer.source[j])
      && s.writer.box.OnScreen(c.screen)
  }

  ghost predicate PublishedOk(c: Config, s: System)
    requires Typed(c, s)
  {
    && (s.cap.ready <==> s.frames != [])
    && s.cap.generation == GenerationOf(|s.frames|)
    && (s.cap.ready ==> s.cap.buffers[s.cap.published] == s.frames[|s.frames| - 1])
    && s.cap.damage == HullOf(s.boxes[s.cleared..])
    && (forall i :: 0 <= i < |s.boxes| ==> s.boxes[i].OnScreen(c.screen))
  }

  ghost predicate Invariant(c: Config, s: System) {
    Typed(c, s) && ReadersOk(c, s) && AllHeldOk(c, s) && PublishedOk(c, s) && WriterOk(c, s)
  }

  lemma InitialInvariant(c: Config, s: System)
    requires c.Valid() && Initial(c, s)
    ensures Invariant(c, s)
  {
    assert forall i :: HoldersOf(s.held, i) == {};
  }

  lemma DropOfAppend(boxes: seq<Box>, k: nat, b: Box)
    requires k <= |boxes|
    ensures (boxes + [b])[k..] == boxes[k..] + [b]
  {
  }

  lemma HullOfAppend(boxes: seq<Box>, b: Box)
    ensures HullOf(boxes + [b]) == Grown(HullOf(boxes), b)
  {
    assert (boxes + [b])[..|boxes|] == boxes;
  }

  lemma CopyIsDone(c: Config, s: System)
    requires Typed(c, s) && WriterOk(c, s) && s.writer.Copying? && s.writer.todo == {}
    ensures s.cap.buffers[s.writer.slot] == s.writer.source && s.writer.box.OnScreen(c.screen)
  {
  }

  lemma CommitTyped(c: Config, s: System)
    requires Typed(c, s) && Enabled(c, s, Commit)
    ensures Typed(c, Apply(c, s, Commit))
  {
  }

  lemma DamageOfAppend(boxes: seq<Box>, k: nat, b: Box)
    requires k <= |boxes|
    ensures HullOf((boxes + [b])[k..]) == Grown(HullOf(boxes[k..]), b)
  {
    DropOfAppend(boxes, k, b);
    HullOfAppend(boxes[k..], b);
  }

  // The conjuncts of PublishedOk after a commit.

  lemma CommitCounts(c: Config, s: System)
    requires Typed(c, s) && Enabled(c, s, Commit) && s.cap.generation == GenerationOf(|s.frames|)
    ensures var s' := Apply(c, s, Commit);
      s'.cap.ready && s'.frames != [] && s'.cap.generation == GenerationOf(|s'.frames|)
  {
    var s' := Apply(c, s, Commit);
    assert |s'.frames| == |s.frames| + 1;
    assert s'.cap.generation == NextGeneration(s.cap.generation);
    hide NextGeneration, Typed;
  }

  lemma CommitNewest(c: Config, s: System)
    requires Typed(c, s) && WriterOk(c, s) && Enabled(c, s, Commit)
    ensures var s' := Apply(c, s, Commit);
      && s'.cap.published < |s'.cap.buffers| && s'.frames != []
      && s'.cap.buffers[s'.cap.published] == s'.frames[|s'.frames| - 1]
  {
    CopyIsDone(c, s);
    hide WriterOk;
    var s' := Apply(c, s, Commit);
    assert s'.cap.buffers == s.cap.buffers && s'.cap.published == s.writer.slot;
    assert s'.frames[|s'.frames| - 1] == s.writer.source;
  }

  lemma CommitDamage(c: Config, s: System)
    requires Typed(c, s) && Enabled(c, s, Commit) && s.cap.damage == HullOf(s.boxes[s.cleared..])
    ensures var s' := Apply(c, s, Commit);
      s'.cleared <= |s'.boxes| && s'.cap.damage == HullOf(s'.boxes[s'.cleared..])
  {
    DamageOfAppend(s.boxes, s.cleared, s.writer.box);
    hide HullOf, Grown;
    var s' := Apply(c, s, Commit);
    assert s'.boxes == s.boxes + [s.writer.box] && s'.cleared == s.cleared;
    assert s'.cap.damage == Grown(s.cap.damage, s.writer.box);
  }

  lemma CommitOnScreen(c: Config, s: System)
    requires Typed(c, s) && WriterOk(c, s) && Enabled(c, s, Commit)
    requires forall i :: 0 <= i < |s.boxes| ==> s.boxes[i].OnScreen(c.screen)
    ensures var s' := Apply(c, s, Commit); forall i :: 0 <= i < |s'.boxes| ==> s'.boxes[i].OnScreen(c.screen)
  {
    CopyIsDone(c, s);
    hide WriterOk;
    assert Apply(c, s, Commit).boxes == s.boxes + [s.writer.box];
  }

  lemma CommitPublished(c: Config, s: System)
    requires Typed(c, s) && PublishedOk(c, s) && WriterOk(c, s) && Enabled(c, s, Commit)
    ensures var s' := Apply(c, s, Commit); Typed(c, s') && PublishedOk(c, s')
  {
    hide Typed, WriterOk, Apply, Enabled, HullOf, GenerationOf;
    CommitTyped(c, s);
    CommitCounts(c, s);
    CommitNewest(c, s);
    CommitDamage(c, s);
    CommitOnScreen(c, s);
  }

  lemma CommitHeld(c: Config, s: System)
    requires Typed(c, s) && AllHeldOk(c, s) && Enabled(c, s, Commit) && Typed(c, Apply(c, s, Commit))
    ensures AllHeldOk(c, Apply(c, s, Commit))
  {
    var s' := Apply(c, s, Commit);
    forall r | r in s'.held ensures HeldOk(c, s', s'.held[r]) {
      var h := s.held[r];
      assert HeldOk(c, s, h);
      assert s'.boxes[h.mark..h.stamp] == s.boxes[h.mark..h.stamp];
    }
  }

  lemma CommitKeeps(c: Config, s: System)
    requires Invariant(c, s) && Enabled(c, s, Commit)
    ensures Invariant(c, Apply(c, s, Commit))
  {
    CommitPublished(c, s);
    CommitHeld(c, s);
    hide PublishedOk, AllHeldOk;
    assert ReadersOk(c, Apply(c, s, Commit));
  }

  lemma HeldIsCounted(c: Config, s: System, r: nat)
    requires Typed(c, s) && ReadersOk(c, s) && r in s.held
    ensures s.cap.readers[s.held[r].view.index] != 0
  {
    assert r in HoldersOf(s.held, s.held[r].view.index);
  }

  lemma CopyTyped(c: Config, s: System, i: nat)
    requires Typed(c, s) && Enabled(c, s, CopyPixel(i))
    ensures var s' := Apply(c, s, CopyPixel(i));
      && Typed(c, s')
      && (forall j :: 0 <= j < c.count && j != s.writer.slot ==> s'.cap.buffers[j] == s.cap.buffers[j])
      && s'.cap.buffers[s.writer.slot] == s.cap.buffers[s.writer.slot][i := s.writer.source[i]]
  {
  }

  lemma CopyKeeps(c: Config, s: System, i: nat)
    requires Invariant(c, s) && Enabled(c, s, CopyPixel(i))
    ensures Invariant(c, Apply(c, s, CopyPixel(i)))
  {
    var s' := Apply(c, s, CopyPixel(i));
    CopyTyped(c, s, i);
    hide HoldersOf, HullOf;
    forall r | r in s'.held ensures HeldOk(c, s', s'.held[r]) {
      assert HeldOk(c, s, s.held[r]);
      HeldIsCounted(c, s, r);
    }
  }

  lemma HoldersGrow(held: map<nat, Holding>, r: nat, h: Holding, i: nat)
    requires r !in held
    ensures |HoldersOf(held[r := h], i)| == |HoldersOf(held, i)| + if h.view.index == i then 1 else 0
  {
    if h.view.index == i {
      assert HoldersOf(held[r := h], i) == HoldersOf(held, i) + {r};
    } else {
      assert HoldersOf(held[r := h], i) == HoldersOf(held, i);
    }
  }

  lemma HoldersShrink(held: map<nat, Holding>, r: nat, i: nat)
    requires r in held
    ensures |HoldersOf(held, i)| == |HoldersOf(held - {r}, i)| + if held[r].view.index == i then 1 else 0
  {
    if held[r].view.index == i {
      assert HoldersOf(held, i) == HoldersOf(held - {r}, i) + {r};
    } else {
      assert HoldersOf(held - {r}, i) == HoldersOf(held, i);
    }
  }

  lemma AcquireCounts(c: Config, s: System, r: nat)
    requires Invariant(c, s) && Enabled(c, s, Acquire(r)) && CanAcquire(s.cap)
    ensures var s' := Apply(c, s, Acquire(r)); Typed(c, s') && ReadersOk(c, s')
  {
    hide HoldersOf;
    var s' := Apply(c, s, Acquire(r));
    var h := Holding(ViewOf(s.cap), |s.frames|, s.cleared);
    assert s'.held == s.held[r := h] && Typed(c, s');
    forall i | 0 <= i < c.count ensures s'.cap.readers[i] == |HoldersOf(s'.held, i)| <= MAX_READERS {
      HoldersGrow(s.held, r, h, i);
    }
  }

  lemma AcquireHeld(c: Config, s: System, r: nat)
    requires Typed(c, s) && AllHeldOk(c, s) && PublishedOk(c, s) && Enabled(c, s, Acquire(r)) && CanAcquire(s.cap)
    requires Typed(c, Apply(c, s, Acquire(r)))
    ensures AllHeldOk(c, Apply(c, s, Acquire(r)))
  {
    hide HullOf, GenerationOf, UpTo;
    var s' := Apply(c, s, Acquire(r));
    assert s.boxes[s.cleared..] == s.boxes[s.cleared..|s.frames|];
    forall q | q in s'.held ensures HeldOk(c, s', s'.held[q]) {
      assert q != r ==> HeldOk(c, s, s.held[q]);
    }
  }

  lemma AcquireRest(c: Config, s: System, r: nat)
    requires Typed(c, s) && PublishedOk(c, s) && WriterOk(c, s) && Enabled(c, s, Acquire(r)) && CanAcquire(s.cap)
    requires Typed(c, Apply(c, s, Acquire(r)))
    ensures PublishedOk(c, Apply(c, s, Acquire(r))) && WriterOk(c, Apply(c, s, Acquire(r)))
  {
    hide HullOf, GenerationOf, UpTo;
  }

  lemma AcquireKeeps(c: Config, s: System, r: nat)
    requires Invariant(c, s) && Enabled(c, s, Acquire(r))
    ensures Invariant(c, Apply(c, s, Acquire(r)))
  {
    hide ReadersOk, AllHeldOk, PublishedOk, WriterOk;
    if CanAcquire(s.cap) {
      AcquireCounts(c, s, r);
      AcquireHeld(c, s, r);
      AcquireRest(c, s, r);
    }
  }

  lemma AcknowledgeHeld(c: Config, s: System, r: nat)
    requires Typed(c, s) && AllHeldOk(c, s) && Enabled(c, s, Acknowledge(r))
    ensures var s' := Apply(c, s, Acknowledge(r)); Typed(c, s') && AllHeldOk(c, s')
  {
    var s' := Apply(c, s, Acknowledge(r));
    forall q | q in s'.held ensures HeldOk(c, s', s'.held[q]) {
      assert HeldOk(c, s, s.held[q]);
    }
  }

  lemma AcknowledgeKeeps(c: Config, s: System, r: nat)
    requires Invariant(c, s) && Enabled(c, s, Acknowledge(r))
    ensures Invariant(c, Apply(c, s, Acknowledge(r)))
  {
    hide AllHeldOk, GenerationOf, HoldersOf;
    AcknowledgeHeld(c, s, r);
  }

  lemma ReleaseCounts(c: Config, s: System, r: nat)
    requires Typed(c, s) && ReadersOk(c, s) && Enabled(c, s, Release(r))
    ensures var s' := Apply(c, s, Release(r)); Typed(c, s') && ReadersOk(c, s')
  {
    hide HoldersOf;
    var s' := Apply(c, s, Release(r));
    HeldIsCounted(c, s, r);
    assert s'.held == s.held - {r} && Typed(c, s');
    forall i | 0 <= i < c.count ensures s'.cap.readers[i] == |HoldersOf(s'.held, i)| <= MAX_READERS {
      HoldersShrink(s.held, r, i);
    }
  }

  lemma ReleaseHeld(c: Config, s: System, r: nat)
    requires Typed(c, s) && AllHeldOk(c, s) && Enabled(c, s, Release(r)) && Typed(c, Apply(c, s, Release(r)))
    ensures AllHeldOk(c, Apply(c, s, Release(r)))
  {
    hide HullOf, GenerationOf, UpTo;
    var s' := Apply(c, s, Release(r));
    forall q | q in s'.held ensures HeldOk(c, s', s'.held[q]) {
      assert HeldOk(c, s, s.held[q]);
    }
  }

  lemma ReleaseKeeps(c: Config, s: System, r: nat)
    requires Invariant(c, s) && Enabled(c, s, Release(r))
    ensures Invariant(c, Apply(c, s, Release(r)))
  {
    hide HullOf, GenerationOf, AllHeldOk, HoldersOf;
    HeldIsCounted(c, s, r);
    ReleaseCounts(c, s, r);
    ReleaseHeld(c, s, r);
  }

  lemma SelectHeld(c: Config, s: System, source: Frame, rect: Box)
    requires Typed(c, s) && AllHeldOk(c, s) && Enabled(c, s, Select(source, rect))
    ensures var s' := Apply(c, s, Select(source, rect)); Typed(c, s') && AllHeldOk(c, s')
  {
    hide HullOf, GenerationOf, UpTo, PublishedBox;
    var s' := Apply(c, s, Select(source, rect));
    forall q | q in s'.held ensures HeldOk(c, s', s'.held[q]) {
      assert HeldOk(c, s, s.held[q]);
    }
  }

  lemma SelectWriter(c: Config, s: System, source: Frame, rect: Box)
    requires Typed(c, s) && ReadersOk(c, s) && PublishedOk(c, s) && Enabled(c, s, Select(source, rect))
    ensures var s' := Apply(c, s, Select(source, rect));
      Typed(c, s') && ReadersOk(c, s') && PublishedOk(c, s') && WriterOk(c, s')
  {
    hide HullOf, GenerationOf, HoldersOf, PublishedBox;
    PublishedBoxOnScreen(c.screen, rect);
  }

  lemma SelectKeeps(c: Config, s: System, source: Frame, rect: Box)
    requires Invariant(c, s) && Enabled(c, s, Select(source, rect))
    ensures Invariant(c, Apply(c, s, Select(source, rect)))
  {
    hide Enabled, Apply, ReadersOk, PublishedOk, WriterOk, AllHeldOk;
    SelectHeld(c, s, source, rect);
    SelectWriter(c, s, source, rect);
  }

  lemma StepKeeps(c: Config, s: System, t: Step)
    requires Invariant(c, s) && Enabled(c, s, t)
    ensures Invariant(c, Apply(c, s, t))
  {
    match t
    case Select(source, rect) => SelectKeeps(c, s, source, rect);
    case CopyPixel(i) => CopyKeeps(c, s, i);
    case Commit => CommitKeeps(c, s);
    case Acquire(r) => AcquireKeeps(c, s, r);
    case Acknowledge(r) => AcknowledgeKeeps(c, s, r);
    case Release(r) => ReleaseKeeps(c, s, r);
  }

  /** `states` is a run: it starts initially and each state follows from the one before by a step. */
  ghost predicate IsRun(c: Config, states: seq<System>) {
    && c.Valid()
    && states != [] && Initial(c, states[0])
    && forall k :: 0 < k < |states| ==> Follows(c, states[k - 1], states[k])
  }

  ghost predicate Follows(c: Config, s: System, s': System) {
    exists t :: Enabled(c, s, t) && s' == Apply(c, s, t)
  }

  lemma {:induction false} RunsKeepInvariant(c: Config, states: seq<System>, k: nat)
    requires IsRun(c, states) && k < |states|
    ensures Invariant(c, states[k])
  {
    if k == 0 {
      InitialInvariant(c, states[0]);
    } else {
      RunsKeepInvariant(c, states, k - 1);
      assert Follows(c, states[k - 1], states[k]);
      var t :| Enabled(c, states[k - 1], t) && states[k] == Apply(c, states[k - 1], t);
      StepKeeps(c, states[k - 1], t);
    }
  }

  // ---------------------------------------------------------------- snapshot isolation

  /** In every reachable state the buffer being written is neither the published one nor one held
      by a reader, the published buffer is the last committed frame, and every held buffer is
      exactly the frame whose commit its view saw. */
  lemma SnapshotIsolation(c: Config, states: seq<System>, k: nat)
    requires IsRun(c, states) && k < |states|
    ensures var s := states[k];
      && Typed(c, s)
      && (s.writer.Copying? ==>
            s.writer.slot != s.cap.published && forall r :: r in s.held ==> s.held[r].view.index != s.writer.slot)
      && (s.cap.ready ==> s.frames != [] && s.cap.buffers[s.cap.published] == s.frames[|s.frames| - 1])
      && (forall r :: r in s.held ==>
            s.cap.buffers[s.held[r].view.index] == s.frames[s.held[r].stamp - 1]
            && s.held[r].view.generation == GenerationOf(s.held[r].stamp))
  {
    RunsKeepInvariant(c, states, k);
    var s := states[k];
    forall r | r in s.held ensures HeldOk(c, s, s.held[r]) && s.cap.readers[s.held[r].view.index] != 0 {
      assert r in HoldersOf(s.held, s.held[r].view.index);
    }
  }

  lemma StepOnlyAppends(c: Config, s: System, t: Step, r: nat)
    requires Invariant(c, s) && Enabled(c, s, t)
    ensures s.frames <= Apply(c, s, t).frames
    ensures r in s.held && r in Apply(c, s, t).held ==> Apply(c, s, t).held[r] == s.held[r]
  {
  }

  lemma RunOnlyAppends(c: Config, states: seq<System>, j: nat, r: nat)
    requires IsRun(c, states) && 0 < j < |states|
    ensures states[j - 1].frames <= states[j].frames
    ensures r in states[j - 1].held && r in states[j].held ==> states[j].held[r] == states[j - 1].held[r]
  {
    RunsKeepInvariant(c, states, j - 1);
    assert Follows(c, states[j - 1], states[j]);
    var t :| Enabled(c, states[j - 1], t) && states[j] == Apply(c, states[j - 1], t);
    StepOnlyAppends(c, states[j - 1], t, r);
  }

  lemma {:induction false} HeldViewIsKept(c: Config, states: seq<System>, i: nat, j: nat, r: nat)
    requires IsRun(c, states) && i <= j < |states|
    requires forall k :: i <= k <= j ==> r in states[k].held
    ensures states[j].held[r] == states[i].held[r]
    ensures states[i].frames <= states[j].frames
  {
    if i < j {
      HeldViewIsKept(c, states, i, j - 1, r);
      RunOnlyAppends(c, states, j, r);
    }
  }

  /** While a reader keeps its view, the view, its buffer and every pixel in it stay the same. */
  lemma HeldViewIsImmutable(c: Config, states: seq<System>, i: nat, j: nat, r: nat)
    requires IsRun(c, states) && i <= j < |states|
    requires forall k :: i <= k <= j ==> r in states[k].held
    ensures states[j].held[r] == states[i].held[r]
    ensures var index := states[i].held[r].view.index;
      Typed(c, states[i]) && Typed(c, states[j]) && states[j].cap.buffers[index] == states[i].cap.buffers[index]
  {
    HeldViewIsKept(c, states, i, j, r);
    SnapshotIsolation(c, states, i);
    SnapshotIsolation(c, states, j);
  }

  // ---------------------------------------------------------------- no dropped frame

  function IndicesOf(held: map<nat, Holding>, readers: set<nat>): set<nat>
    requires readers <= held.Keys
  {
    set r | r in readers :: held[r].view.index
  }

  lemma {:induction false} ImageIsNoLarger(held: map<nat, Holding>, readers: set<nat>)
    requires readers <= held.Keys
    ensures |IndicesOf(held, readers)| <= |readers|
  {
    if readers != {} {
      var r :| r in readers;
      ImageIsNoLarger(held, readers - {r});
      assert IndicesOf(held, readers) == IndicesOf(held, readers - {r}) + {held[r].view.index};
    }
  }

  lemma {:induction false} UpToSize(n: nat)
    ensures |UpTo(n)| == n
  {
    if n > 0 {
      UpToSize(n - 1);
    }
  }

  lemma UpToWithout(n: nat, k: nat)
    requires k < n
    ensures |UpTo(n) - {k}| == n - 1
  {
    UpToSize(n);
    assert UpTo(n) == (UpTo(n) - {k}) + {k};
  }

  /** Publish finds no buffer exactly when each buffer but the published one has a view on it. */
  lemma DropsExactlyWhenAllHeld(c: Config, s: System)
    requires Invariant(c, s)
    ensures FirstFree(s.cap, 0) == c.count <==>
            UpTo(c.count) - {s.cap.published} <= IndicesOf(s.held, s.held.Keys)
  {
    if FirstFree(s.cap, 0) == c.count {
      forall i | i in UpTo(c.count) - {s.cap.published} ensures i in IndicesOf(s.held, s.held.Keys) {
        assert !Free(s.cap, i);
        assert HoldersOf(s.held, i) != {};
        var r :| r in HoldersOf(s.held, i);
        assert r in s.held.Keys;
      }
    } else {
      var i := FirstFree(s.cap, 0);
      assert HoldersOf(s.held, i) == {};
      assert forall r :: r in s.held && s.held[r].view.index == i ==> r in HoldersOf(s.held, i);
      assert i in UpTo(c.count) - {s.cap.published};
    }
  }

  /** With at most count - 2 views held, every publication gets a buffer. */
  lemma NoDroppedFrame(c: Config, s: System)
    requires Invariant(c, s) && |s.held| + 2 <= c.count
    ensures FirstFree(s.cap, 0) < c.count
  {
    hide ReadersOk, AllHeldOk, WriterOk, PublishedOk, FirstFree, IndicesOf;
    DropsExactlyWhenAllHeld(c, s);
    if FirstFree(s.cap, 0) == c.count {
      UpToWithout(c.count, s.cap.published);
      ImageIsNoLarger(s.held, s.held.Keys);
      SubsetIsNoLarger(UpTo(c.count) - {s.cap.published}, IndicesOf(s.held, s.held.Keys));
    }
  }

  lemma {:induction false} SubsetIsNoLarger(a: set<nat>, b: set<nat>)
    requires a <= b
    ensures |a| <= |b|
  {
    if a != {} {
      var x :| x in a;
      SubsetIsNoLarger(a - {x}, b - {x});
    }
  }

  // ---------------------------------------------------------------- damage

  /** The damage box is on the screen, includes every publication since the last effective
      acknowledgement and nothing beyond their hull; there is none exactly when all are cleared. */
  lemma DamageIsConserved(c: Config, states: seq<System>, k: nat)
    requires IsRun(c, states) && k < |states|
    ensures var s := states[k];
      && s.cleared <= |s.boxes| == |s.frames|
      && (s.cap.damage == None <==> s.cleared == |s.boxes|)
      && (s.cap.damage.Some? ==>
            && s.cap.damage.value.OnScreen(c.screen)
            && (forall i :: s.cleared <= i < |s.boxes| ==> s.cap.damage.value.Includes(s.boxes[i]))
            && (forall b: Box :: (forall i :: s.cleared <= i < |s.boxes| ==> b.Includes(s.boxes[i])) ==>
                  b.Includes(s.cap.damage.value)))
  {
    RunsKeepInvariant(c, states, k);
    var s := states[k];
    var rest := s.boxes[s.cleared..];
    HullOfIncludes(rest);
    if rest != [] {
      HullOfOnScreen(c.screen, rest);
      forall i | s.cleared <= i < |s.boxes| ensures s.cap.damage.value.Includes(s.boxes[i]) {
        assert rest[i - s.cleared] == s.boxes[i];
      }
      forall b: Box | forall i :: s.cleared <= i < |s.boxes| ==> b.Includes(s.boxes[i])
        ensures b.Includes(s.cap.damage.value)
      {
        HullOfIsLeast(rest, b);
      }
    }
  }

  /** The number of distinct generations: 32 bits without zero. */
  const PERIOD := 0xFFFF_FFFF

  lemma {:induction false} GenerationCycles(n: nat)
    requires 0 < n
    ensures GenerationOf(n) == (n - 1) % PERIOD + 1
  {
    if n > 1 {
      GenerationCycles(n - 1);
      CycleStep(n - 2);
    }
  }

  lemma CycleStep(k: nat)
    ensures NextGeneration(k % PERIOD + 1) == (k + 1) % PERIOD + 1
  {
  }

  lemma SameResidue(a: nat, b: nat, m: nat)
    requires 0 < m && a <= b
    ensures a % m == b % m <==> (b - a) % m == 0
  {
    var qa, ra, qb, rb := a / m, a % m, b / m, b % m;
    assert b - a == (qb - qa) * m + (rb - ra);
    if ra == rb {
      MultipleHasNoRest(qb - qa, m);
    } else if (b - a) % m == 0 {
      var q := (b - a) / m;
      assert (q - (qb - qa)) * m == rb - ra;
      NoSmallMultiple(q - (qb - qa), m, rb - ra);
    }
  }

  lemma MultipleHasNoRest(k: int, m: nat)
    requires 0 < m && 0 <= k * m
    ensures (k * m) % m == 0
  {
    var q, r := (k * m) / m, (k * m) % m;
    assert (k - q) * m == r;
    NoSmallMultiple(k - q, m, r);
  }

  /** An acknowledgement takes effect exactly when the number of publications since its view was
      acquired is a multiple of 2^32 - 1. */
  lemma AcknowledgeTakesEffectExactlyWhen(c: Config, s: System, r: nat)
    requires Invariant(c, s) && r in s.held
    ensures Effective(s, r) <==> (|s.frames| - s.held[r].stamp) % PERIOD == 0
  {
    var h := s.held[r];
    assert HeldOk(c, s, h);
    hide ReadersOk, AllHeldOk, WriterOk, HeldOk, HullOf;
    GenerationCycles(h.stamp);
    GenerationCycles(|s.frames|);
    SameResidue(h.stamp - 1, |s.frames| - 1, PERIOD);
  }

  /** What is left of `boxes` from `cleared` on is in the hull of what was there from `mark` on. */
  lemma LaterAreSeen(boxes: seq<Box>, mark: nat, cleared: nat)
    requires mark <= cleared <= |boxes|
    ensures forall i :: cleared <= i < |boxes| ==>
              HullOf(boxes[mark..]).Some? && HullOf(boxes[mark..]).value.Includes(boxes[i])
  {
    var seen := boxes[mark..];
    HullOfIncludes(seen);
    hide HullOf;
    forall i | cleared <= i < |boxes| ensures HullOf(seen).Some? && HullOf(seen).value.Includes(boxes[i]) {
      assert seen[i - mark] == boxes[i];
    }
  }

  lemma ViewKnowsDamage(c: Config, s: System, r: nat)
    requires Invariant(c, s) && r in s.held && s.held[r].stamp == |s.frames|
    ensures s.held[r].mark <= s.cleared <= |s.boxes| && s.held[r].view.damage == HullOf(s.boxes[s.held[r].mark..])
  {
    hide HullOf, GenerationOf, ReadersOk, WriterOk;
    var h := s.held[r];
    assert HeldOk(c, s, h);
    assert s.boxes[h.mark..h.stamp] == s.boxes[h.mark..];
  }

  /** An effective acknowledgement clears only publications the view has seen, exactly when fewer
      than 2^32 - 1 others were made while it was held; each cleared box is then in the view's damage. */
  lemma AcknowledgeClearsOnlySeenDamage(c: Config, s: System, r: nat)
    requires Invariant(c, s) && r in s.held && Effective(s, r)
    ensures |s.frames| == s.held[r].stamp <==> |s.frames| - s.held[r].stamp < PERIOD
    ensures |s.frames| - s.held[r].stamp < PERIOD ==>
              && Apply(c, s, Acknowledge(r)).cap.damage == None
              && (forall i :: s.cleared <= i < |s.boxes| ==>
                    s.held[r].view.damage.Some? && s.held[r].view.damage.value.Includes(s.boxes[i]))
  {
    hide ReadersOk, WriterOk, PublishedOk, GenerationOf;
    AcknowledgeTakesEffectExactlyWhen(c, s, r);
    assert HeldOk(c, s, s.held[r]);
    assert s.held[r].stamp <= |s.frames|;
    hide AllHeldOk, HeldOk;
    if |s.frames| - s.held[r].stamp < PERIOD {
      ViewKnowsDamage(c, s, r);
      LaterAreSeen(s.boxes, s.held[r].mark, s.cleared);
    }
  }

  // ---------------------------------------------------------------- the generation does wrap

  ghost predicate Reachable(c: Config, s: System) {
    exists states :: IsRun(c, states) && s == states[|states| - 1]
  }

  lemma ReachableInvariant(c: Config, s: System)
    requires Reachable(c, s)
    ensures Invariant(c, s)
  {
    var states :| IsRun(c, states) && s == states[|states| - 1];
    RunsKeepInvariant(c, states, |states| - 1);
  }

  lemma RunExtends(c: Config, states: seq<System>, t: Step)
    requires IsRun(c, states) && Enabled(c, states[|states| - 1], t)
    ensures IsRun(c, states + [Apply(c, states[|states| - 1], t)])
  {
    var s := states[|states| - 1];
    var s' := Apply(c, s, t);
    var longer := states + [s'];
    assert Follows(c, s, s');
    hide Apply, Enabled, Follows, Initial;
    forall k | 0 < k < |longer| ensures Follows(c, longer[k - 1], longer[k]) {
      assert k < |states| ==> Follows(c, states[k - 1], states[k]);
    }
  }

  lemma StepReaches(c: Config, s: System, t: Step) returns (s': System)
    requires Reachable(c, s) && Enabled(c, s, t)
    ensures s' == Apply(c, s, t) && Reachable(c, s') && Invariant(c, s')
  {
    s' := Apply(c, s, t);
    var states :| IsRun(c, states) && s == states[|states| - 1];
    RunExtends(c, states, t);
    hide Apply, Enabled, IsRun, Invariant;
    assert (states + [s'])[|states|] == s';
    ReachableInvariant(c, s');
  }

  /** The publisher is copying `frame`, and nothing else has happened since `s`. */
  predicate OnlyCopying(s: System, s': System, frame: Frame, box: Box) {
    && s'.writer.Copying? && s'.writer.source == frame && s'.writer.box == box
    && s'.held == s.held && s'.cleared == s.cleared && s'.frames == s.frames && s'.boxes == s.boxes
  }

  /** The publisher is done with `n` publications of `frame` since `s`, and nothing else has happened. */
  predicate OnlyPublished(s: System, s': System, n: nat, frame: Frame, box: Box) {
    && s'.writer == Resting && s'.held == s.held && s'.cleared == s.cleared
    && s'.frames == s.frames + seq(n, i => frame) && s'.boxes == s.boxes + seq(n, i => box)
  }

  lemma {:induction false} CopyAll(c: Config, s: System, now: System, frame: Frame, box: Box) returns (s': System)
    requires Reachable(c, now) && Invariant(c, now) && OnlyCopying(s, now, frame, box)
    ensures Reachable(c, s') && Invariant(c, s') && OnlyCopying(s, s', frame, box) && s'.writer.todo == {}
    decreases now.writer.todo
  {
    if now.writer.todo == {} {
      s' := now;
    } else {
      var i :| i in now.writer.todo;
      var next := StepReaches(c, now, CopyPixel(i));
      s' := CopyAll(c, s, next, frame, box);
    }
  }

  lemma SelectStarts(c: Config, s: System, frame: Frame, rect: Box)
    requires Enabled(c, s, Select(frame, rect)) && FirstFree(s.cap, 0) < c.count
    ensures OnlyCopying(s, Apply(c, s, Select(frame, rect)), frame, PublishedBox(c.screen, rect))
  {
    hide FirstFree, PublishedBox;
  }

  lemma CommitEnds(c: Config, s: System, now: System, frame: Frame, box: Box)
    requires Enabled(c, now, Commit) && OnlyCopying(s, now, frame, box)
    ensures OnlyPublished(s, Apply(c, now, Commit), 1, frame, box)
  {
  }

  lemma Startable(c: Config, s: System, frame: Frame, rect: Box)
    requires Invariant(c, s) && s.writer == Resting && |frame| == c.screen.Pixels()
    ensures Enabled(c, s, Select(frame, rect))
  {
  }

  lemma Committable(c: Config, s: System, now: System, frame: Frame, box: Box)
    requires Invariant(c, now) && OnlyCopying(s, now, frame, box) && now.writer.todo == {}
    ensures Enabled(c, now, Commit)
  {
  }

  lemma PublishOnce(c: Config, s: System, frame: Frame, rect: Box) returns (s': System)
    requires Reachable(c, s) && Invariant(c, s) && |frame| == c.screen.Pixels()
    requires s.writer == Resting && |s.held| + 2 <= c.count
    ensures Reachable(c, s') && Invariant(c, s')
    ensures OnlyPublished(s, s', 1, frame, PublishedBox(c.screen, rect))
  {
    Startable(c, s, frame, rect);
    NoDroppedFrame(c, s);
    SelectStarts(c, s, frame, rect);
    hide Reachable, Invariant, Enabled, Apply, OnlyCopying, OnlyPublished, PublishedBox;
    s' := StepReaches(c, s, Select(frame, rect));
    s' := CopyAll(c, s, s', frame, PublishedBox(c.screen, rect));
    Committable(c, s, s', frame, PublishedBox(c.screen, rect));
    CommitEnds(c, s, s', frame, PublishedBox(c.screen, rect));
    s' := StepReaches(c, s', Commit);
  }

  lemma PublishMany(c: Config, s: System, frame: Frame, rect: Box, n: nat) returns (s': System)
    requires Reachable(c, s) && Invariant(c, s) && |frame| == c.screen.Pixels()
    requires s.writer == Resting && |s.held| + 2 <= c.count
    ensures Reachable(c, s') && Invariant(c, s')
    ensures OnlyPublished(s, s', n, frame, PublishedBox(c.screen, rect))
  {
    hide Reachable, Invariant, PublishedBox;
    s' := s;
    for k := 0 to n
      invariant Reachable(c, s') && Invariant(c, s')
      invariant OnlyPublished(s, s', k, frame, PublishedBox(c.screen, rect))
    {
      var before := s';
      s' := PublishOnce(c, s', frame, rect);
      OneMore(s.frames, k, frame);
      OneMore(s.boxes, k, PublishedBox(c.screen, rect));
    }
  }

  lemma OneMore<T>(s: seq<T>, n: nat, x: T)
    ensures (s + seq(n, i => x)) + seq(1, i => x) == s + seq(n + 1, i => x)
  {
  }

  lemma StartIsReachable(c: Config, blank: Frame) returns (s: System)
    requires c.Valid() && |blank| == c.screen.Pixels()
    ensures Reachable(c, s) && Invariant(c, s) && Initial(c, s)
  {
    s := System(State(seq(c.count, i => blank), seq(c.count, i => 0), 0, false, 0, None), Resting, map[], [], [], 0);
    InitialInvariant(c, s);
    assert IsRun(c, [s]);
  }

  const CORNER := Box(0, 0, 0, 0)

  lemma FirstIsReady(c: Config, s: System, blank: Frame, r: nat)
    requires Invariant(c, s) && s.held == map[] && s.cleared == 0 && s.frames == [blank] && s.boxes == [CORNER]
    ensures Enabled(c, s, Acquire(r)) && CanAcquire(s.cap) && s.cap.damage == Some(CORNER)
  {
    hide GenerationOf, AllHeldOk, WriterOk;
    assert s.boxes[0..] == [CORNER];
    assert HullOf([CORNER]) == Some(CORNER);
    assert HoldersOf(s.held, s.cap.published) == {};
  }

  lemma ViewIsTaken(c: Config, s: System, r: nat)
    requires Enabled(c, s, Acquire(r)) && CanAcquire(s.cap)
    ensures var s' := Apply(c, s, Acquire(r));
      && s'.writer == s.writer && s'.cleared == s.cleared && s'.frames == s.frames
      && s'.held == s.held[r := Holding(ViewOf(s.cap), |s.frames|, s.cleared)]
  {
  }

  /** One publication that damages one corner pixel, then one reader takes a view of it. */
  lemma FirstView(c: Config, blank: Frame, r: nat) returns (s: System)
    requires c.Valid() && 3 <= c.count && |blank| == c.screen.Pixels()
    ensures Reachable(c, s) && Invariant(c, s)
    ensures s.writer == Resting && s.held.Keys == {r} && s.cleared == 0
    ensures s.frames == [blank] && s.held[r].stamp == 1 && s.held[r].view.damage == Some(CORNER)
  {
    hide Reachable, Invariant, Enabled, Apply, CanAcquire;
    s := StartIsReachable(c, blank);
    s := PublishOnce(c, s, blank, CORNER);
    assert PublishedBox(c.screen, CORNER) == CORNER;
    assert s.frames == [blank] && s.boxes == [CORNER];
    FirstIsReady(c, s, blank, r);
    ViewIsTaken(c, s, r);
    s := StepReaches(c, s, Acquire(r));
  }

  function Uniform(c: Config, pixel: Pixel): (f: Frame)
    ensures |f| == c.screen.Pixels() && forall i :: 0 <= i < |f| ==> f[i] == pixel
  {
    seq(c.screen.Pixels(), i => pixel)
  }

  /** The promise that an acknowledgement clears damage only if no newer frame was published does fail,
      after exactly 2^32 - 1 publications: a state is reached in which a reader's acknowledgement clears
      the whole screen's damage, although its view is older than every one of them, knows of one damaged
      pixel, and shows no pixel as it is published now. */
  lemma AcknowledgeCanClearUnseenDamage(c: Config, r: nat)
    requires c.Valid() && 3 <= c.count
    ensures exists s :: Reachable(c, s) && ClearsUnseen(c, s, r)
  {
    var s := FirstView(c, Uniform(c, 0), r);
    assert |s.held| == |s.held.Keys| == 1;
    hide Reachable, Invariant;
    var s' := PublishMany(c, s, Uniform(c, 1), c.screen.Full(), PERIOD);
    LateAcknowledge(c, s', r);
  }

  lemma LateAcknowledge(c: Config, s: System, r: nat)
    requires Invariant(c, s) && r in s.held && s.held[r].stamp == 1 && s.cleared == 0
    requires s.held[r].view.damage == Some(CORNER)
    requires |s.frames| == 1 + PERIOD && s.frames[0] == Uniform(c, 0)
    requires s.frames[PERIOD] == Uniform(c, 1) && s.boxes[PERIOD] == c.screen.Full()
    ensures ClearsUnseen(c, s, r)
  {
    hide ReadersOk, WriterOk, GenerationOf, Uniform;
    assert HeldOk(c, s, s.held[r]);
    AcknowledgeTakesEffectExactlyWhen(c, s, r);
    hide AllHeldOk, HullOf;
    HullOfIncludes(s.boxes);
    assert s.boxes[0..] == s.boxes;
  }

  ghost predicate ClearsUnseen(c: Config, s: System, r: nat) {
    && Enabled(c, s, Acknowledge(r))
    && |s.frames| == s.held[r].stamp + PERIOD
    && s.cap.damage.Some? && s.cap.damage.value.Includes(c.screen.Full())
    && s.held[r].view.damage == Some(CORNER)
    && (forall i :: 0 <= i < c.screen.Pixels() ==>
          s.cap.buffers[s.held[r].view.index][i] != s.cap.buffers[s.cap.published][i])
    && Apply(c, s, Acknowledge(r)).cap.damage == None
  }
}
