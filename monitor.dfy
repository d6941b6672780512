/**
 * The loss-detection loop `monitor_ip` of ping-to-us.py.
 *
 * Each pass of the `while True` loop is one tick. A tick sees the outcome of
 * one probe and two clock readings: the one taken when a failed probe opens
 * a loss episode, and the one taken for the threshold test. (A failed probe
 * also reads the clock for its log line; that reading only formats the
 * message and is not modelled.) It may send a recovery
 * message and may start the background diagnostic thread. The loop keeps two
 * variables between ticks: the start time of the current loss episode and
 * whether that episode has already been reported.
 *
 * `Next`, `Final` and `Trace` state this as functions; `LossMonitor` is the
 * loop body over mutable state and `MonitorIp` runs it over a finite list of
 * ticks. The lemmas describe what happens within one loss episode.
 */
module Monitor {
  import opened Wrappers

  /** LOSS_THRESHOLD, in seconds. */
  const LossThreshold: int := 3

  /** `loss_start_time` and `loss_detected`. Times are whole seconds. */
  datatype MonitorState = MonitorState(lossStart: Option<int>, lossDetected: bool)

  /** One pass of the loop: the probe outcome, the clock read when a failed
      probe opens an episode, and the clock read for the threshold test. */
  datatype Tick = Tick(ok: bool, startClock: int, checkClock: int)

  /** The two outside effects of a tick: the recovery message was sent, the
      diagnostic-and-notify thread was started. */
  datatype Events = Events(recovered: bool, spawned: bool)

  const Initial := MonitorState(None, false)

  /** Python truthiness of `loss_start_time` in the threshold test: set, and
      not the number 0. */
  predicate StartRecorded(start: Option<int>) {
    start.Some? && start.value != 0
  }

  /** A reported episode always has a (truthy) start time. */
  predicate Inv(s: MonitorState) {
    s.lossDetected ==> StartRecorded(s.lossStart)
  }

  /** One pass of the loop body. */
  function Next(s: MonitorState, t: Tick): (r: (MonitorState, Events))
    // a successful probe sends the recovery message exactly when the episode
    // was reported, never starts the diagnostic thread, and forgets the episode
    ensures t.ok ==> r.0 == Initial && r.1 == Events(s.lossDetected, false)
    // a failed probe never sends a recovery message
    ensures !t.ok ==> !r.1.recovered
    // a failed probe opens an episode only if none is open, and an open
    // episode keeps its start time
    ensures !t.ok && s.lossStart.None? ==> r.0.lossStart == Some(t.startClock)
    ensures !t.ok && s.lossStart.Some? ==> r.0.lossStart == s.lossStart
    // the diagnostic thread starts exactly when a failed probe finds an unreported
    // episode with a truthy start at least LossThreshold seconds ago
    ensures r.1.spawned <==> !t.ok && !s.lossDetected && StartRecorded(r.0.lossStart)
                             && t.checkClock - r.0.lossStart.value >= LossThreshold
    // the episode is reported after the tick exactly when the probe failed
    // and it was reported before or is reported now
    ensures r.0.lossDetected <==> !t.ok && (s.lossDetected || r.1.spawned)
    ensures Inv(s) ==> Inv(r.0)
  {
    var (start, detected, recovered) :=
      if t.ok then (None, false, s.lossDetected)
      else (if s.lossStart.None? then Some(t.startClock) else s.lossStart, s.lossDetected, false);
    var spawned := StartRecorded(start) && t.checkClock - start.value >= LossThreshold && !detected;
    (MonitorState(start, detected || spawned), Events(recovered, spawned))
  }

  /** The state after running `ticks` from `s`. */
  function Final(s: MonitorState, ticks: seq<Tick>): (r: MonitorState)
    ensures Inv(s) ==> Inv(r)
    decreases |ticks|
  {
    if ticks == [] then s else Final(Next(s, ticks[0]).0, ticks[1..])
  }

  /** The events of running `ticks` from `s`, one entry per tick. */
  function Trace(s: MonitorState, ticks: seq<Tick>): (es: seq<Events>)
    ensures |es| == |ticks|
    decreases |ticks|
  {
    if ticks == [] then []
    else [Next(s, ticks[0]).1] + Trace(Next(s, ticks[0]).0, ticks[1..])
  }

  /** The state before tick `j`. */
  function StateAt(s: MonitorState, ticks: seq<Tick>, j: int): MonitorState
    requires 0 <= j <= |ticks|
  {
    Final(s, ticks[..j])
  }

  /** Tick `j` of a run starts in `StateAt(j)`, produces event `j` of the
      trace and leads to `StateAt(j + 1)`. */
  lemma {:induction false} StepAt(s: MonitorState, ticks: seq<Tick>, j: int)
    requires 0 <= j < |ticks|
    ensures StateAt(s, ticks, j + 1) == Next(StateAt(s, ticks, j), ticks[j]).0
    ensures Trace(s, ticks)[j] == Next(StateAt(s, ticks, j), ticks[j]).1
    decreases j
  {
    var s' := Next(s, ticks[0]).0;
    if j == 0 {
      assert ticks[..0] == [];
      assert ticks[..1] == [ticks[0]];
      assert ticks[..1][1..] == [];
      assert Final(s, ticks[..1]) == Final(s', []) == s';
    } else {
      StepAt(s', ticks[1..], j - 1);
      assert ticks[..j + 1][1..] == ticks[1..][..j];
      assert ticks[..j][1..] == ticks[1..][..j - 1];
    }
  }

  /** A reported episode stays reported through failed probes. */
  lemma {:induction false} StaysDetected(s: MonitorState, ticks: seq<Tick>, a: int, m: int)
    requires 0 <= a <= m <= |ticks|
    requires StateAt(s, ticks, a).lossDetected
    requires forall k :: a <= k < m ==> !ticks[k].ok
    ensures StateAt(s, ticks, m).lossDetected
  {
    if m > a {
      StaysDetected(s, ticks, a, m - 1);
      StepAt(s, ticks, m - 1);
    }
  }

  /** The diagnostic thread is started at most once per loss episode: between two ticks
      that start it there is a successful probe. */
  lemma {:induction false} SpawnAtMostOncePerEpisode(s: MonitorState, ticks: seq<Tick>, i: int, j: int)
    requires 0 <= i < j < |ticks|
    requires Trace(s, ticks)[i].spawned && Trace(s, ticks)[j].spawned
    ensures exists k :: i < k < j && ticks[k].ok
  {
    StepAt(s, ticks, i);
    StepAt(s, ticks, j);
    if forall k :: i < k < j ==> !ticks[k].ok {
      StaysDetected(s, ticks, i + 1, j);
      assert false;
    }
  }

  /** The episode is reported before tick `j` exactly when some earlier tick
      started the diagnostic thread and every probe since then failed, or the run began
      reported and every probe so far failed. */
  lemma {:induction false} DetectedIff(s: MonitorState, ticks: seq<Tick>, j: int)
    requires 0 <= j <= |ticks|
    ensures StateAt(s, ticks, j).lossDetected <==>
      (exists i :: 0 <= i < j && Trace(s, ticks)[i].spawned && FailsBetween(ticks, i + 1, j))
      || (s.lossDetected && FailsBetween(ticks, 0, j))
  {
    if j == 0 {
      assert ticks[..0] == [];
    } else {
      DetectedIff(s, ticks, j - 1);
      StepAt(s, ticks, j - 1);
      var es := Trace(s, ticks);
      if StateAt(s, ticks, j).lossDetected {
        if es[j - 1].spawned {
          assert FailsBetween(ticks, j, j);
        } else if exists i :: 0 <= i < j - 1 && es[i].spawned && FailsBetween(ticks, i + 1, j - 1) {
          var i :| 0 <= i < j - 1 && es[i].spawned && FailsBetween(ticks, i + 1, j - 1);
          assert FailsBetween(ticks, i + 1, j);
        }
      } else {
        forall i | 0 <= i < j ensures !(es[i].spawned && FailsBetween(ticks, i + 1, j)) {
          if i < j - 1 && FailsBetween(ticks, i + 1, j) {
            assert FailsBetween(ticks, i + 1, j - 1);
          }
        }
      }
    }
  }

  /** Every probe at ticks `a .. b - 1` failed. */
  predicate FailsBetween(ticks: seq<Tick>, a: int, b: int)
    requires 0 <= a && b <= |ticks|
  {
    forall k :: a <= k < b ==> !ticks[k].ok
  }

  /** In a run that starts unreported, a recovery message is sent at tick `j`
      exactly when that probe succeeds and an earlier tick started the diagnostic thread
      with every probe in between failing. */
  lemma {:induction false} RecoveryIff(s: MonitorState, ticks: seq<Tick>, j: int)
    requires !s.lossDetected
    requires 0 <= j < |ticks|
    ensures Trace(s, ticks)[j].recovered <==>
      ticks[j].ok && exists i :: 0 <= i < j && Trace(s, ticks)[i].spawned && FailsBetween(ticks, i + 1, j)
  {
    StepAt(s, ticks, j);
    DetectedIff(s, ticks, j);
  }

  /** At most one recovery message per episode: the report that a recovery
      message closes was made after the previous recovery, and every probe
      since that report failed. */
  lemma {:induction false} RecoveryAtMostOncePerEpisode(s: MonitorState, ticks: seq<Tick>, j1: int, j2: int)
    requires !s.lossDetected
    requires 0 <= j1 < j2 < |ticks|
    requires Trace(s, ticks)[j1].recovered && Trace(s, ticks)[j2].recovered
    ensures exists i :: j1 < i < j2 && Trace(s, ticks)[i].spawned && FailsBetween(ticks, i + 1, j2)
  {
    RecoveryIff(s, ticks, j1);
    RecoveryIff(s, ticks, j2);
    var i :| 0 <= i < j2 && Trace(s, ticks)[i].spawned && FailsBetween(ticks, i + 1, j2);
    StepAt(s, ticks, i);
    assert i != j1;
  }

  /** Within an episode that opens at tick `a` (the state before it is the
      initial one: the run's start or the tick after a success) and whose
      probes all fail, the start time is the first failed tick's clock and
      is never overwritten, and the episode is reported before tick `m`
      exactly when its start is truthy and some earlier tick of the episode
      found the threshold reached. */
  lemma {:induction false} EpisodeState(s: MonitorState, ticks: seq<Tick>, a: int, m: int)
    requires 0 <= a < m <= |ticks|
    requires StateAt(s, ticks, a) == Initial
    requires FailsBetween(ticks, a, m)
    ensures StateAt(s, ticks, m).lossStart == Some(ticks[a].startClock)
    ensures StateAt(s, ticks, m).lossDetected <==>
      (ticks[a].startClock != 0
       && exists k :: a <= k < m && ticks[k].checkClock - ticks[a].startClock >= LossThreshold)
  {
    StepAt(s, ticks, m - 1);
    if m - 1 > a {
      EpisodeState(s, ticks, a, m - 1);
      var t0 := ticks[a].startClock;
      if StateAt(s, ticks, m).lossDetected && !StateAt(s, ticks, m - 1).lossDetected {
        assert ticks[m - 1].checkClock - t0 >= LossThreshold;
      }
    }
  }

  /** When the diagnostic thread starts in an episode: at tick `j` of an episode that opens
      at tick `a` and has failed ever since, exactly when the episode's start
      is truthy, tick `j` finds the threshold reached and no earlier tick of
      the episode did. */
  lemma {:induction false} SpawnWhenThresholdFirstReached(s: MonitorState, ticks: seq<Tick>, a: int, j: int)
    requires 0 <= a <= j < |ticks|
    requires StateAt(s, ticks, a) == Initial
    requires FailsBetween(ticks, a, j + 1)
    ensures Trace(s, ticks)[j].spawned <==>
      ticks[a].startClock != 0
      && ticks[j].checkClock - ticks[a].startClock >= LossThreshold
      && forall k :: a <= k < j ==> ticks[k].checkClock - ticks[a].startClock < LossThreshold
  {
    StepAt(s, ticks, j);
    if j > a {
      EpisodeState(s, ticks, a, j);
    }
  }

  /** Scenario "loss heals before the threshold": an episode opening at tick
      `a` whose failed probes all see less than LossThreshold seconds since
      its start, and which ends with a successful probe at tick `b`, sends
      nothing at all and leaves the monitor in its initial state. */
  lemma {:induction false} SelfHealingEpisodeIsSilent(s: MonitorState, ticks: seq<Tick>, a: int, b: int)
    requires 0 <= a <= b < |ticks|
    requires StateAt(s, ticks, a) == Initial
    requires FailsBetween(ticks, a, b) && ticks[b].ok
    requires forall k :: a <= k < b ==> ticks[k].checkClock - ticks[a].startClock < LossThreshold
    ensures forall k :: a <= k <= b ==> Trace(s, ticks)[k] == Events(false, false)
    ensures StateAt(s, ticks, b + 1) == Initial
  {
    forall k | a <= k < b ensures Trace(s, ticks)[k] == Events(false, false) {
      StepAt(s, ticks, k);
      SpawnWhenThresholdFirstReached(s, ticks, a, k);
    }
    StepAt(s, ticks, b);
    if b > a {
      EpisodeState(s, ticks, a, b);
    }
  }

  /** The loop's own variables, updated in place tick by tick. */
  class LossMonitor {
    var lossStart: Option<int>
    var lossDetected: bool

    function Model(): MonitorState
      reads this
    {
      MonitorState(lossStart, lossDetected)
    }

    ghost predicate Valid()
      reads this
    {
      Inv(Model())
    }

    /** `loss_start_time = None`, `loss_detected = False`. */
    constructor ()
      ensures Model() == Initial && Valid()
    {
      lossStart := None;
      lossDetected := false;
    }

    /** One pass of the `while True` body, after `ping(ip)` has returned
        `t.ok`; the two results say whether the recovery message was sent
        and whether the background thread was started. */
    method Step(t: Tick) returns (recovered: bool, spawned: bool)
      requires Valid()
      modifies this
      ensures Valid()
      ensures (Model(), Events(recovered, spawned)) == Next(old(Model()), t)
    {
      recovered, spawned := false, false;
      if t.ok {
        if lossDetected {
          recovered := true;
          lossDetected := false;
        }
        lossStart := None;
      } else {
        if lossStart.None? {
          lossStart := Some(t.startClock);
        }
      }
      if lossStart.Some? && lossStart.value != 0
        && t.checkClock - lossStart.value >= LossThreshold && !lossDetected
      {
        spawned := true;
        lossDetected := true;
      }
    }
  }

  /** `monitor_ip` over a finite prefix of its endless loop: the events of
      every tick, in order, and the state after the last one. */
  method MonitorIp(ticks: seq<Tick>) returns (events: seq<Events>, last: MonitorState)
    ensures events == Trace(Initial, ticks)
    ensures last == Final(Initial, ticks)
    ensures Inv(last)
  {
    var monitor := new LossMonitor();
    events := [];
    var i := 0;
    while i < |ticks|
      invariant 0 <= i <= |ticks|
      invariant monitor.Valid()
      invariant events + Trace(monitor.Model(), ticks[i..]) == Trace(Initial, ticks)
      invariant Final(monitor.Model(), ticks[i..]) == Final(Initial, ticks)
    {
      ghost var before := monitor.Model();
      var recovered, spawned := monitor.Step(ticks[i]);
      assert ticks[i..][1..] == ticks[i + 1..];
      assert Trace(before, ticks[i..]) == [Events(recovered, spawned)] + Trace(monitor.Model(), ticks[i + 1..]);
      events := events + [Events(recovered, spawned)];
      i := i + 1;
    }
    last := monitor.Model();
  }
}
