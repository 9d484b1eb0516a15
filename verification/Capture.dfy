/** The screen-capture module (app_vnc_frame.c): a pool of snapshot buffers, one
    of them published, with reader counts, a generation counter and a damage box.

    `State` and the functions on it say what each lock region does to the module's
    static variables; class `FrameCapture` holds those variables and performs the
    operations in place. */
module Capture {
  import opened Common
  import opened Rectangles

  /** An RGB565 pixel. */
  type Pixel = p: int | 0 <= p < 0x1_0000

  /** One screen of pixels, row by row. */
  type Frame = seq<Pixel>

  const MAX_READERS := 255

  /** What Acquire hands to a reader. The pixels are those of buffer `index`. */
  datatype View = View(index: nat, generation: nat, damage: Option<Box>)

  datatype State = State(
    buffers: seq<Frame>,
    readers: seq<nat>,
    published: nat,
    ready: bool,
    generation: nat,
    damage: Option<Box>)
  {
    predicate Shaped(count: nat, pixels: nat) {
      && |buffers| == |readers| == count
      && published < count
      && (forall i :: 0 <= i < count ==> |buffers[i]| == pixels)
    }
  }

  /** A buffer the publisher may write: not the published one, and read by nobody. */
  predicate Free(s: State, i: nat)
    requires i < |s.readers|
  {
    i != s.published && s.readers[i] == 0
  }

  /** The first free buffer from `from` on; |s.readers| when there is none. */
  function FirstFree(s: State, from: nat): (i: nat)
    requires from <= |s.readers|
    ensures from <= i <= |s.readers|
    ensures i < |s.readers| ==> Free(s, i)
    ensures forall j :: from <= j < i ==> !Free(s, j)
    decreases |s.readers| - from
  {
    if from == |s.readers| || Free(s, from) then from else FirstFree(s, from + 1)
  }

  /** The 32-bit generation counter: it wraps and skips zero. */
  function NextGeneration(g: nat): nat {
    var n := (g + 1) % 0x1_0000_0000;
    if n == 0 then 1 else n
  }

  function Grown(damage: Option<Box>, b: Box): Option<Box> {
    match damage
    case None => Some(b)
    case Some(d) => Some(Hull(d, b))
  }

  /** The second lock region of Publish: buffer `slot` becomes the published one. */
  function Committed(s: State, slot: nat, b: Box): State {
    s.(published := slot, ready := true, generation := NextGeneration(s.generation), damage := Grown(s.damage, b))
  }

  /** Acquire gives a view when something is published and its reader count can still grow. */
  predicate CanAcquire(s: State)
    requires s.published < |s.readers|
  {
    s.ready && s.readers[s.published] != MAX_READERS
  }

  function ViewOf(s: State): View {
    View(s.published, s.generation, s.damage)
  }

  function Acquired(s: State): State
    requires s.published < |s.readers|
  {
    s.(readers := s.readers[s.published := s.readers[s.published] + 1])
  }

  function Released(s: State, index: nat): State
    requires index < |s.readers|
  {
    if s.readers[index] == 0 then s else s.(readers := s.readers[index := s.readers[index] - 1])
  }

  function Acknowledged(s: State, generation: nat): State {
    if s.ready && s.generation == generation then s.(damage := None) else s
  }

  class FrameCapture {
    const screen: Screen
    const count: nat
    const buffer: array2<Pixel>
    const readers: array<int>
    var publishedIndex: nat
    var ready: bool
    var generation: nat
    var dirtyValid: bool
    var dirtyLeft: int
    var dirtyTop: int
    var dirtyRight: int
    var dirtyBottom: int

    ghost predicate Valid()
      reads this, buffer, readers
    {
      && screen.Valid()
      && buffer.Length0 == count && buffer.Length1 == screen.Pixels()
      && readers.Length == count
      && (forall i :: 0 <= i < count ==> 0 <= readers[i] <= MAX_READERS)
      && publishedIndex < count
      && generation < 0x1_0000_0000
      && (dirtyValid ==> Damage().value.OnScreen(screen))
    }

    ghost function FrameAt(i: nat): (f: Frame)
      requires i < buffer.Length0
      reads buffer
      ensures |f| == buffer.Length1
    {
      seq(buffer.Length1, j requires 0 <= j < buffer.Length1 reads buffer => buffer[i, j])
    }

    ghost function Damage(): Option<Box>
      reads this
    {
      if dirtyValid then Some(Box(dirtyLeft, dirtyTop, dirtyRight, dirtyBottom)) else None
    }

    /** The static variables as a value. */
    ghost function Contents(): (s: State)
      requires Valid()
      reads this, buffer, readers
      ensures s.Shaped(count, screen.Pixels())
      ensures forall i :: 0 <= i < count ==> s.buffers[i] == FrameAt(i)
    {
      State(seq(count, i requires 0 <= i < count && count == buffer.Length0 reads this, buffer => FrameAt(i)),
            seq(count, i requires 0 <= i < count && count == readers.Length && readers[i] >= 0 reads this, readers => readers[i]),
            publishedIndex, ready, generation, Damage())
    }

    /** Static storage starts zeroed: nothing published, nobody reading. */
    constructor (screen: Screen, count: nat)
      requires screen.Valid() && 0 < count < 0x100
      ensures Valid() && fresh(buffer) && fresh(readers)
      ensures this.screen == screen && this.count == count
      ensures !ready && generation == 0 && !dirtyValid
      ensures forall i :: 0 <= i < count ==> readers[i] == 0
    {
      this.screen := screen;
      this.count := count;
      buffer := new Pixel[count, screen.Pixels()]((i, j) => 0);
      readers := new int[count](i => 0);
      publishedIndex, ready, generation, dirtyValid := 0, false, 0, false;
      dirtyLeft, dirtyTop, dirtyRight, dirtyBottom := 0, 0, 0, 0;
    }

    /** First lock region of Publish: `slot == count` means every buffer is taken. */
    method SelectSlot() returns (slot: nat)
      requires Valid()
      ensures slot == FirstFree(Contents(), 0)
    {
      slot := count;
      var index := 0;
      while index < count
        invariant 0 <= index <= count
        invariant slot == count
        invariant FirstFree(Contents(), 0) == FirstFree(Contents(), index)
      {
        if index != publishedIndex && readers[index] == 0 {
          slot := index;
          break;
        }
        index := index + 1;
      }
    }

    /** The unlocked memcpy of Publish. */
    method CopyInto(slot: nat, source: array<Pixel>)
      requires Valid() && slot < count && source.Length == screen.Pixels()
      modifies buffer
      ensures Valid()
      ensures Contents() == old(Contents()).(buffers := old(Contents()).buffers[slot := source[..]])
    {
      var j := 0;
      while j < source.Length
        invariant 0 <= j <= source.Length
        invariant forall k :: 0 <= k < j ==> buffer[slot, k] == source[k]
        invariant forall i, k :: 0 <= i < count && i != slot && 0 <= k < buffer.Length1 ==> buffer[i, k] == old(buffer[i, k])
      {
        buffer[slot, j] := source[j];
        j := j + 1;
      }
      assert FrameAt(slot) == source[..];
      forall i | 0 <= i < count && i != slot ensures FrameAt(i) == old(FrameAt(i)) {
      }
      assert Contents().buffers == old(Contents()).buffers[slot := source[..]];
    }

    /** The damage update inside the second lock region of Publish. */
    method GrowDamage(box: Box)
      modifies this`dirtyValid, this`dirtyLeft, this`dirtyTop, this`dirtyRight, this`dirtyBottom
      ensures Damage() == Grown(old(Damage()), box)
    {
      if !dirtyValid {
        dirtyLeft, dirtyTop, dirtyRight, dirtyBottom := box.left, box.top, box.right, box.bottom;
        dirtyValid := true;
      } else {
        if box.left < dirtyLeft { dirtyLeft := box.left; }
        if box.top < dirtyTop { dirtyTop := box.top; }
        if box.right > dirtyRight { dirtyRight := box.right; }
        if box.bottom > dirtyBottom { dirtyBottom := box.bottom; }
      }
    }

    /** Second lock region of Publish. */
    method Commit(slot: nat, box: Box)
      requires Valid() && slot < count && box.OnScreen(screen)
      modifies this
      ensures Valid()
      ensures Contents() == Committed(old(Contents()), slot, box)
    {
      publishedIndex := slot;
      generation := (generation + 1) % 0x1_0000_0000;
      if generation == 0 {
        generation := 1;
      }
      ready := true;
      GrowDamage(box);
      assert Contents().buffers == old(Contents()).buffers;
      assert Contents().readers == old(Contents()).readers;
    }

    /** App_VNC_Frame_Publish run without interference: the frame and its damage are
        committed together, or nothing changes. */
    method Publish(source: array?<Pixel>, rect: Box) returns (committed: bool)
      requires Valid() && (source != null ==> source.Length == screen.Pixels())
      modifies this, buffer
      ensures Valid()
      ensures committed <==> source != null && FirstFree(old(Contents()), 0) < count
      ensures !committed ==> Contents() == old(Contents())
      ensures committed ==>
                var slot := FirstFree(old(Contents()), 0);
                Contents() == Committed(old(Contents()).(buffers := old(Contents()).buffers[slot := source[..]]),
                                        slot, PublishedBox(screen, rect))
    {
      committed := false;
      if source == null {
        return;
      }
      var box := PublishedBox(screen, rect);
      PublishedBoxOnScreen(screen, rect);
      var slot := SelectSlot();
      if slot >= count {
        return;
      }
      CopyInto(slot, source);
      Commit(slot, box);
      committed := true;
    }

    method Acquire() returns (view: Option<View>)
      requires Valid()
      modifies readers
      ensures Valid()
      ensures view.Some? <==> CanAcquire(old(Contents()))
      ensures view.None? ==> Contents() == old(Contents())
      ensures view.Some? ==> view.value == ViewOf(old(Contents())) && Contents() == Acquired(old(Contents()))
      ensures view.Some? ==> readers[..] == old(readers[..])[publishedIndex := old(readers[publishedIndex]) + 1]
      ensures view.None? ==> readers[..] == old(readers[..])
    {
      if !ready || readers[publishedIndex] == MAX_READERS {
        return None;
      }
      var index := publishedIndex;
      readers[index] := readers[index] + 1;
      view := Some(View(index, generation, if dirtyValid then Some(Box(dirtyLeft, dirtyTop, dirtyRight, dirtyBottom)) else None));
      assert Contents().readers == Acquired(old(Contents())).readers;
      assert Contents().buffers == old(Contents()).buffers;
    }

    /** `index >= count` is a view already released: nothing happens. */
    method Release(index: nat)
      requires Valid()
      modifies readers
      ensures Valid()
      ensures Contents() == if index < count then Released(old(Contents()), index) else old(Contents())
      ensures readers[..] == if index < count && old(readers[index]) != 0
                             then old(readers[..])[index := old(readers[index]) - 1] else old(readers[..])
    {
      if index < count && readers[index] != 0 {
        readers[index] := readers[index] - 1;
        assert Contents().readers == Released(old(Contents()), index).readers;
      }
      assert Contents().buffers == old(Contents()).buffers;
    }

    method Acknowledge(generation: nat)
      requires Valid()
      modifies this
      ensures Valid()
      ensures Contents() == Acknowledged(old(Contents()), generation)
    {
      if ready && this.generation == generation {
        dirtyValid := false;
      }
    }

    /** The damage box still includes all of `damage`, and something is still published if it was before. */
    ghost predicate Kept(damage: Option<Box>, wasReady: bool)
      reads this
    {
      (damage.Some? ==> dirtyValid && Damage().value.Includes(damage.value)) && (wasReady ==> ready)
    }

    lemma Unchanged()
      ensures Kept(Damage(), ready)
    {
    }

    /** What the GUI thread may do while another thread runs: publish any frames, any number of times.
        Whatever it does, nobody's reader count changes, no buffer being read is written, damage only grows, and
        something stays published. */
    method PublishAnything(rounds: nat)
      requires Valid()
      modifies this, buffer
      ensures Valid()
      ensures forall i :: 0 <= i < count && readers[i] != 0 ==> FrameAt(i) == old(FrameAt(i))
      ensures Kept(old(Damage()), old(ready))
    {
      var n := rounds;
      while n > 0
        invariant Valid()
        invariant forall i :: 0 <= i < count && readers[i] != 0 ==> FrameAt(i) == old(FrameAt(i))
        invariant Kept(old(Damage()), old(ready))
      {
        var source := new Pixel[screen.Pixels()];
        var rect: Box := *;
        ghost var before := Contents();
        var committed := Publish(source, rect);
        if committed {
          forall i | 0 <= i < count && readers[i] != 0 ensures FrameAt(i) == before.buffers[i] {
            assert !Free(before, i);
            assert Contents().buffers[i] == before.buffers[i];
          }
        } else {
          assert Contents().buffers == before.buffers;
        }
        n := n - 1;
      }
    }
  }
}
