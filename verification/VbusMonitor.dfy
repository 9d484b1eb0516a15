/** Cable detection of the USB device (app_usbx_device.c): the debounced VBUS level and the soft connection that
    follows it. Times are milliseconds without bound; the driver sees them as a 32-bit tick that wraps. */
module VbusMonitor {

  const DEBOUNCE: nat := 75
  const WRAP: nat := 0x1_0000_0000

  /** The tick at a time, and the difference of two ticks. */
  function Tick(time: nat): nat {
    time % WRAP
  }

  function Elapsed(now: nat, since: nat): nat {
    (now - since) % WRAP
  }

  lemma ElapsedWraps(a: nat, b: nat)
    requires b <= a
    ensures Elapsed(Tick(a), Tick(b)) == (a - b) % WRAP
  {
    Wraps(a / WRAP - b / WRAP, a % WRAP - b % WRAP);
  }

  lemma Wraps(k: int, d: int)
    ensures (k * WRAP + d) % WRAP == d % WRAP
  {
    var q := k + d / WRAP;
    assert k * WRAP + d == q * WRAP + d % WRAP;
  }

  datatype Sample = Sample(time: nat, level: bool)

  /** Samples in the order they were taken; there is at least the one of the initialization. */
  predicate Timeline(s: seq<Sample>) {
    s != [] && forall i, j :: 0 <= i <= j < |s| ==> s[i].time <= s[j].time
  }

  function Last(s: seq<Sample>): Sample
    requires s != []
  {
    s[|s| - 1]
  }

  /** Where the last stretch of equal levels begins. */
  function RunStart(s: seq<Sample>): (k: nat)
    requires s != []
    ensures k < |s|
  {
    if |s| == 1 || s[|s| - 2].level != Last(s).level then |s| - 1 else RunStart(s[..|s| - 1])
  }

  lemma {:induction false} RunIsLevel(s: seq<Sample>)
    requires s != []
    ensures forall i :: RunStart(s) <= i < |s| ==> s[i].level == Last(s).level
    ensures RunStart(s) > 0 ==> s[RunStart(s) - 1].level != Last(s).level
  {
    if |s| > 1 && s[|s| - 2].level == Last(s).level {
      var t := s[..|s| - 1];
      RunIsLevel(t);
      assert forall i :: RunStart(s) <= i < |t| ==> s[i] == t[i];
    }
  }

  /** How long the level has been what it is, by the samples. */
  function Steady(s: seq<Sample>): (d: nat)
    requires Timeline(s)
  {
    Last(s).time - s[RunStart(s)].time
  }

  /** The same as the driver computes it. */
  function TicksSteady(s: seq<Sample>): nat
    requires s != []
  {
    Elapsed(Tick(Last(s).time), Tick(s[RunStart(s)].time))
  }

  /** The debounced level: it follows a level that, by the wrapping clock, has been steady long enough. */
  function Debounced(s: seq<Sample>): bool
    requires Timeline(s)
  {
    if |s| == 1 then s[0].level
    else if TicksSteady(s) >= DEBOUNCE then Last(s).level
    else Debounced(s[..|s| - 1])
  }

  /** The commands given to the USB peripheral: true connects, false disconnects. It starts connected. */
  function Commands(s: seq<Sample>): seq<bool>
    requires Timeline(s)
  {
    if |s| == 1 then if s[0].level then [] else [false]
    else
      var earlier := s[..|s| - 1];
      Commands(earlier) + if Debounced(s) != Debounced(earlier) then [Debounced(s)] else []
  }

  // ---------------------------------------------------------------- what the debouncing means

  /** A wrapping clock never overstates. */
  lemma TicksAreNoMore(s: seq<Sample>)
    requires Timeline(s)
    ensures TicksSteady(s) <= Steady(s)
  {
    ElapsedWraps(Last(s).time, s[RunStart(s)].time);
    AtMost(Steady(s));
  }

  lemma AtMost(d: nat)
    ensures d % WRAP <= d
  {
  }

  /** Every sample of the last `d` milliseconds, and one at least that old, read `v`. */
  ghost predicate ReadFor(s: seq<Sample>, v: bool, d: nat)
    requires Timeline(s)
  {
    && (exists i :: 0 <= i < |s| && s[i].time + d <= Last(s).time && s[i].level == v)
    && (forall i :: 0 <= i < |s| && s[i].time + d > Last(s).time ==> s[i].level == v)
  }

  /** The debounced level changes only to a level that all samples of at least the last 75 ms read,
      however often the tick wrapped. */
  lemma ChangesOnlyWhenSteady(s: seq<Sample>)
    requires Timeline(s) && |s| > 1 && Debounced(s) != Debounced(s[..|s| - 1])
    ensures Debounced(s) == Last(s).level && Steady(s) >= DEBOUNCE && ReadFor(s, Debounced(s), DEBOUNCE)
  {
    var k := RunStart(s);
    TicksAreNoMore(s);
    RunIsLevel(s);
    hide TicksSteady;
    assert s[k].time + DEBOUNCE <= Last(s).time && s[k].level == Last(s).level;
  }

  lemma RunStartStays(s: seq<Sample>, n: nat)
    requires s != [] && RunStart(s) < n <= |s|
    ensures RunStart(s[..n]) == RunStart(s)
  {
    RunIsLevel(s);
    RunIsLevel(s[..n]);
    var k := RunStart(s[..n]);
    assert s[..n][n - 1] == s[n - 1];
    assert k > 0 ==> s[..n][k - 1] == s[k - 1];
    assert RunStart(s) > 0 ==> s[..n][RunStart(s) - 1] == s[RunStart(s) - 1];
  }

  /** A level that some sample found steady for at least 75 ms, and less than a whole turn of the tick, is
      reported as long as it lasts. */
  lemma {:induction false} FollowsSteadyLevel(s: seq<Sample>, n: nat)
    requires Timeline(s) && RunStart(s) < n <= |s| && DEBOUNCE <= s[n - 1].time - s[RunStart(s)].time < WRAP
    ensures Debounced(s) == Last(s).level
  {
    if n < |s| {
      var t := s[..|s| - 1];
      RunStartStays(s, |s| - 1);
      RunIsLevel(s);
      FollowsSteadyLevel(t, n);
      assert Last(t).level == Last(s).level;
    } else if |s| > 1 {
      ElapsedWraps(Last(s).time, s[RunStart(s)].time);
    }
  }

  /** Whether a sample with a new level that follows one of the same level is taken over. */
  lemma TakenOverExactlyWhen(s: seq<Sample>)
    requires Timeline(s) && |s| > 1 && Last(s).level != Debounced(s[..|s| - 1])
    ensures Debounced(s) == Last(s).level <==> Steady(s) % WRAP >= DEBOUNCE
  {
    ElapsedWraps(Last(s).time, s[RunStart(s)].time);
  }

  /** Levels that never last 75 ms change nothing. */
  lemma {:induction false} GlitchesAreIgnored(s: seq<Sample>)
    requires Timeline(s)
    requires forall n :: 0 < n <= |s| ==> Timeline(s[..n]) && Steady(s[..n]) < DEBOUNCE
    ensures Debounced(s) == s[0].level
  {
    hide Tick, Elapsed;
    if |s| > 1 {
      var t := s[..|s| - 1];
      forall n | 0 < n <= |t| ensures Timeline(t[..n]) && Steady(t[..n]) < DEBOUNCE {
        assert t[..n] == s[..n];
      }
      GlitchesAreIgnored(t);
      assert s[..|s|] == s;
      TicksAreNoMore(s);
    }
  }

  /** Disconnect and connect commands strictly alternate, beginning with a disconnect, and the last one says what
      the debounced level is. */
  lemma {:induction false} CommandsAlternate(s: seq<Sample>)
    requires Timeline(s)
    ensures forall i :: 0 <= i < |Commands(s)| ==> Commands(s)[i] == (i % 2 == 1)
    ensures Debounced(s) == (|Commands(s)| % 2 == 0)
  {
    hide RunStart, TicksSteady;
    if |s| > 1 {
      CommandsAlternate(s[..|s| - 1]);
    }
  }

  // ---------------------------------------------------------------- the driver

  /** What the driver keeps of the samples: the last level, the tick at which it began, the debounced level, and the
      commands given. */
  ghost predicate Tracks(s: seq<Sample>, candidate: bool, since: nat, stable: bool, commands: seq<bool>)
    requires s != []
  {
    && Timeline(s)
    && candidate == Last(s).level && since == Tick(s[RunStart(s)].time)
    && stable == Debounced(s) && commands == Commands(s)
  }

  class Monitor {
    var candidate: bool
    var stable: bool
    var softConnected: bool
    /** usbx_vbus_candidate_since, a tick. */
    var since: nat
    /** What the application state shows as "cable connected". */
    var cable: bool

    ghost var samples: seq<Sample>
    ghost var commands: seq<bool>

    ghost predicate Valid()
      reads this
    {
      && samples != [] && Tracks(samples, candidate, since, stable, commands)
      && stable == softConnected == cable
    }

    /** The end of MX_USBX_Device_Init. */
    constructor (level: bool, time: nat)
      ensures Valid() && samples == [Sample(time, level)]
    {
      candidate := level;
      stable := level;
      since := Tick(time);
      softConnected := true;
      cable := level;
      samples, commands := [Sample(time, level)], [];
      new;
      if !stable {
        Disconnect();
      }
    }

    method Disconnect()
      modifies this`softConnected, this`commands
      ensures !softConnected && commands == old(commands) + [false]
    {
      softConnected := false;
      commands := commands + [false];
    }

    method Connect()
      modifies this`softConnected, this`commands
      ensures softConnected && commands == old(commands) + [true]
    {
      softConnected := true;
      commands := commands + [true];
    }

    /** App_USBX_Device_Service; `ready` says that the device stack has been started. */
    method Service(ready: bool, level: bool, time: nat)
      requires Valid() && Last(samples).time <= time
      modifies this
      ensures Valid()
      ensures samples == if ready then old(samples) + [Sample(time, level)] else old(samples)
    {
      if !ready {
        return;
      }
      hide Tracks, Tick, Elapsed;
      var now := Tick(time);
      ghost var earlier, sample := samples, Sample(time, level);
      samples := earlier + [sample];
      if level != candidate {
        OtherLevel(earlier, sample, since, stable, commands);
        candidate := level;
        since := now;
        return;
      }
      SameLevel(earlier, sample, since, stable, commands);
      if level != stable && Elapsed(now, since) >= DEBOUNCE {
        Switch(level);
      }
    }

    /** The level has been accepted: the connection follows it. */
    method Switch(level: bool)
      requires stable == softConnected == cable != level
      modifies this`stable, this`softConnected, this`cable, this`commands
      ensures stable == softConnected == cable == level && commands == old(commands) + [level]
    {
      stable := level;
      if !level {
        if softConnected {
          Disconnect();
        }
        cable := false;
      } else {
        cable := true;
        if !softConnected {
          Connect();
        }
      }
    }
  }

  lemma Extended(s: seq<Sample>, x: Sample)
    requires Timeline(s) && Last(s).time <= x.time
    ensures var t := s + [x];
      var start := if x.level == Last(s).level then s[RunStart(s)].time else x.time;
      && Timeline(t) && Last(t) == x && t[RunStart(t)].time == start
      && Debounced(t) == (if Elapsed(Tick(x.time), Tick(start)) >= DEBOUNCE then x.level else Debounced(s))
      && Commands(t) == Commands(s) + if Debounced(t) != Debounced(s) then [Debounced(t)] else []
  {
    hide Tick, Elapsed;
    var t := s + [x];
    assert t[..|t| - 1] == s;
  }

  // What one more sample does to what the driver tracks.

  lemma OtherLevel(s: seq<Sample>, x: Sample, since: nat, stable: bool, commands: seq<bool>)
    requires s != [] && Last(s).time <= x.time && Last(s).level != x.level
    requires Tracks(s, !x.level, since, stable, commands)
    ensures Tracks(s + [x], x.level, Tick(x.time), stable, commands)
  {
    hide Timeline, RunStart, Debounced, Commands, Tick;
    Extended(s, x);
    assert Elapsed(Tick(x.time), Tick(x.time)) == 0;
  }

  lemma SameLevel(s: seq<Sample>, x: Sample, since: nat, stable: bool, commands: seq<bool>)
    requires s != [] && Last(s).time <= x.time
    requires Tracks(s, x.level, since, stable, commands)
    ensures if x.level != stable && Elapsed(Tick(x.time), since) >= DEBOUNCE
            then Tracks(s + [x], x.level, since, x.level, commands + [x.level])
            else Tracks(s + [x], x.level, since, stable, commands)
  {
    hide Timeline, RunStart, Debounced, Commands, Tick, Elapsed;
    Extended(s, x);
  }
}
