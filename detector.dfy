/**
 The deauthentication-flood detector (`DeAuthDetector` in detector.py).
 Each received frame that carries a deauthentication layer bumps a counter,
 records its transmitter address, records its arrival time, trims the
 arrival times to the sliding window and, while the window holds at least
 `threshold` entries, raises an alert.

 The model is given in two layers: `Step` is the effect of one call of
 `process_packet` on the detector's four state fields, `Run` is the effect
 of a whole history of calls, and the class `DeAuthDetector` is the object
 whose method updates those fields in place and is proved to follow `Step`.
 */
module Detector {
  import opened SlidingWindow

  /** A link-layer (MAC) address as scapy renders it, e.g. "aa:bb:cc:dd:ee:ff". */
  type Mac = string

  /** The part of a captured frame the detector looks at: does it carry a `Dot11Deauth` layer, and its `addr2`. */
  datatype Packet = Packet(isDeauth: bool, addr2: Mac)

  /** The detection parameters fixed at construction. */
  datatype Config = Config(threshold: int, timeWindow: real)

  /** The detector's mutable detection state. */
  datatype State = State(
    packetTimes: seq<real>,
    suspiciousMacs: set<Mac>,
    totalDeauthPackets: nat,
    alertsTriggered: nat)

  /** One call of `process_packet`: the frame and the clock reading it would take. */
  datatype Arrival = Arrival(pkt: Packet, ts: real)

  /** The state of a freshly constructed detector. */
  function Initial(): (s: State) {
    State([], {}, 0, 0)
  }

  /**
   The effect of `process_packet(pkt)` when the clock reads `ts`. No counter
   goes down and no address is forgotten; each counter goes up by at most one.
   */
  function Step(cfg: Config, s: State, pkt: Packet, ts: real): (s': State)
    ensures s.totalDeauthPackets <= s'.totalDeauthPackets <= s.totalDeauthPackets + 1
    ensures s.alertsTriggered <= s'.alertsTriggered <= s.alertsTriggered + 1
    ensures s.suspiciousMacs <= s'.suspiciousMacs
  {
    if !pkt.isDeauth then s
    else
      var times := Window(s.packetTimes + [ts], ts, cfg.timeWindow);
      State(
        times,
        s.suspiciousMacs + {pkt.addr2},
        s.totalDeauthPackets + 1,
        if |times| >= cfg.threshold then s.alertsTriggered + 1 else s.alertsTriggered)
  }

  /**
   The state after processing every arrival of `history`, oldest first: the
   packet counter has grown by one per deauthentication frame of the history,
   and the alert counter by at most as much.
   */
  function Run(cfg: Config, s: State, history: seq<Arrival>): (s': State)
    ensures s'.totalDeauthPackets == s.totalDeauthPackets + CountDeauth(history)
    ensures s.alertsTriggered <= s'.alertsTriggered <= s.alertsTriggered + CountDeauth(history)
    decreases |history|
  {
    if history == [] then s
    else
      var a := history[|history| - 1];
      Step(cfg, Run(cfg, s, history[..|history| - 1]), a.pkt, a.ts)
  }

  /** How many arrivals of `history` are deauthentication frames. */
  function CountDeauth(history: seq<Arrival>): (n: nat)
    decreases |history|
  {
    if history == [] then 0
    else CountDeauth(history[..|history| - 1]) + (if history[|history| - 1].pkt.isDeauth then 1 else 0)
  }

  /** The transmitter addresses of the deauthentication frames of `history`. */
  function DeauthMacs(history: seq<Arrival>): (macs: set<Mac>)
    decreases |history|
  {
    if history == [] then {}
    else
      var a := history[|history| - 1];
      DeauthMacs(history[..|history| - 1]) + (if a.pkt.isDeauth then {a.pkt.addr2} else {})
  }

  /** The arrival times of the deauthentication frames of `history`, oldest first. */
  function DeauthTimes(history: seq<Arrival>): (times: seq<real>)
    decreases |history|
  {
    if history == [] then []
    else
      var a := history[|history| - 1];
      DeauthTimes(history[..|history| - 1]) + (if a.pkt.isDeauth then [a.ts] else [])
  }

  /**
   Counters and address set of one step: a frame without a deauthentication
   layer changes nothing; a deauthentication frame adds exactly one to the
   packet counter and exactly its `addr2` to the address set.
   */
  lemma StepCounters(cfg: Config, s: State, pkt: Packet, ts: real)
    ensures !pkt.isDeauth ==> Step(cfg, s, pkt, ts) == s
    ensures pkt.isDeauth ==>
      Step(cfg, s, pkt, ts).totalDeauthPackets == s.totalDeauthPackets + 1 &&
      Step(cfg, s, pkt, ts).suspiciousMacs == s.suspiciousMacs + {pkt.addr2}
    ensures Step(cfg, s, pkt, ts).alertsTriggered - s.alertsTriggered
         <= Step(cfg, s, pkt, ts).totalDeauthPackets - s.totalDeauthPackets
  {
  }

  /**
   The window after a deauthentication frame at `ts`: exactly the old entries
   still in the window followed by `ts` itself (so it is never empty and ends
   with `ts`); every retained entry is in the window and every entry in the
   window is retained; it is an order-preserving subsequence of the old list
   followed by `ts`; and it stays ascending when the old list was ascending
   and `ts` is not earlier than any of it.
   */
  lemma StepWindow(cfg: Config, s: State, pkt: Packet, ts: real)
    requires cfg.timeWindow >= 0.0
    requires pkt.isDeauth
    ensures Step(cfg, s, pkt, ts).packetTimes == Window(s.packetTimes, ts, cfg.timeWindow) + [ts]
    ensures forall t :: t in Step(cfg, s, pkt, ts).packetTimes <==>
      (t in s.packetTimes || t == ts) && ts - t <= cfg.timeWindow
    ensures IsSubsequence(Step(cfg, s, pkt, ts).packetTimes, s.packetTimes + [ts])
    ensures Sorted(s.packetTimes) && (forall t :: t in s.packetTimes ==> t <= ts) ==>
      Sorted(Step(cfg, s, pkt, ts).packetTimes)
  {
    var all := s.packetTimes + [ts];
    WindowKeepsNewest(s.packetTimes, ts, cfg.timeWindow);
    forall t {
      WindowMembership(all, ts, cfg.timeWindow, t);
    }
    WindowSubsequence(all, ts, cfg.timeWindow);
    if Sorted(s.packetTimes) && (forall t :: t in s.packetTimes ==> t <= ts) {
      forall i, j | 0 <= i < j < |all| ensures all[i] <= all[j] {
        if j == |all| - 1 { assert all[i] in s.packetTimes; }
      }
      WindowSorted(all, ts, cfg.timeWindow);
    }
  }

  /**
   The alert rule of one deauthentication frame: the alert counter goes up by
   one exactly when the trimmed window holds at least `threshold` entries, and
   otherwise stays. It is level-triggered: it fires again on every frame for
   which the condition holds.
   */
  lemma StepAlert(cfg: Config, s: State, pkt: Packet, ts: real)
    requires cfg.timeWindow >= 0.0
    requires pkt.isDeauth
    ensures Step(cfg, s, pkt, ts).alertsTriggered == s.alertsTriggered + 1 <==>
      |Window(s.packetTimes, ts, cfg.timeWindow)| + 1 >= cfg.threshold
    ensures Step(cfg, s, pkt, ts).alertsTriggered != s.alertsTriggered + 1 ==>
      Step(cfg, s, pkt, ts).alertsTriggered == s.alertsTriggered
  {
    WindowKeepsNewest(s.packetTimes, ts, cfg.timeWindow);
  }

  /**
   From a fresh detector, after any history of calls: the packet counter is
   the number of deauthentication frames, the address set is exactly the set
   of their transmitters, the window is no longer than the packet count and
   there are never more alerts than deauthentication frames.
   */
  lemma {:induction false} RunCounters(cfg: Config, history: seq<Arrival>)
    ensures Run(cfg, Initial(), history).totalDeauthPackets == CountDeauth(history)
    ensures Run(cfg, Initial(), history).suspiciousMacs == DeauthMacs(history)
    ensures Run(cfg, Initial(), history).alertsTriggered <= Run(cfg, Initial(), history).totalDeauthPackets
    ensures |Run(cfg, Initial(), history).packetTimes| <= Run(cfg, Initial(), history).totalDeauthPackets
    decreases |history|
  {
    if history != [] {
      RunCounters(cfg, history[..|history| - 1]);
    }
  }

  /** Over a longer history the counters never go down and the address set never shrinks. */
  lemma {:induction false} RunMonotone(cfg: Config, s: State, history: seq<Arrival>, k: nat)
    requires k <= |history|
    ensures Run(cfg, s, history[..k]).totalDeauthPackets <= Run(cfg, s, history).totalDeauthPackets
    ensures Run(cfg, s, history[..k]).alertsTriggered <= Run(cfg, s, history).alertsTriggered
    ensures Run(cfg, s, history[..k]).suspiciousMacs <= Run(cfg, s, history).suspiciousMacs
    decreases |history|
  {
    if k < |history| {
      var front := history[..|history| - 1];
      assert history[..k] == front[..k];
      RunMonotone(cfg, s, front, k);
    } else {
      assert history[..k] == history;
    }
  }

  /**
   Whatever the arrival times, once a deauthentication frame has been seen
   the window is not empty, ends with the most recently arrived
   deauthentication time (not necessarily the largest), holds
   only times within `timeWindow` of it, and is an order-preserving
   subsequence of all deauthentication times.
   */
  lemma {:induction false} RunWindow(cfg: Config, history: seq<Arrival>)
    requires cfg.timeWindow >= 0.0
    ensures IsSubsequence(Run(cfg, Initial(), history).packetTimes, DeauthTimes(history))
    ensures DeauthTimes(history) == [] ==> Run(cfg, Initial(), history).packetTimes == []
    ensures DeauthTimes(history) != [] ==>
      var times := Run(cfg, Initial(), history).packetTimes;
      var last := DeauthTimes(history)[|DeauthTimes(history)| - 1];
      times != [] && times[|times| - 1] == last &&
      forall t :: t in times ==> last - t <= cfg.timeWindow
    decreases |history|
  {
    if history != [] {
      var front := history[..|history| - 1];
      var a := history[|history| - 1];
      RunWindow(cfg, front);
      if a.pkt.isDeauth {
        var s := Run(cfg, Initial(), front);
        assert Run(cfg, Initial(), history) == Step(cfg, s, a.pkt, a.ts);
        assert DeauthTimes(history) == DeauthTimes(front) + [a.ts];
        StepWindow(cfg, s, a.pkt, a.ts);
        SubsequenceAppend(s.packetTimes, DeauthTimes(front), a.ts);
        SubsequenceTrans(Run(cfg, Initial(), history).packetTimes, s.packetTimes + [a.ts], DeauthTimes(history));
      } else {
        assert Run(cfg, Initial(), history) == Run(cfg, Initial(), front);
        assert DeauthTimes(history) == DeauthTimes(front);
      }
    }
  }

  /**
   When deauthentication frames arrive in non-decreasing time order, trimming
   at every step gives exactly the batch filter of all deauthentication times
   against the latest one, and the window is ascending.
   */
  lemma {:induction false} RunWindowSorted(cfg: Config, history: seq<Arrival>)
    requires cfg.timeWindow >= 0.0
    requires Sorted(DeauthTimes(history))
    ensures DeauthTimes(history) != [] ==>
      Run(cfg, Initial(), history).packetTimes ==
        Window(DeauthTimes(history), DeauthTimes(history)[|DeauthTimes(history)| - 1], cfg.timeWindow)
    ensures Sorted(Run(cfg, Initial(), history).packetTimes)
    decreases |history|
  {
    if history != [] {
      var front := history[..|history| - 1];
      var a := history[|history| - 1];
      var times := DeauthTimes(front);
      assert Sorted(times) by {
        assert forall i :: 0 <= i < |times| ==> times[i] == DeauthTimes(history)[i];
      }
      RunWindowSorted(cfg, front);
      RunWindow(cfg, front);
      if a.pkt.isDeauth {
        var s := Run(cfg, Initial(), front);
        assert DeauthTimes(history) == times + [a.ts];
        WindowKeepsNewest(times, a.ts, cfg.timeWindow);
        WindowKeepsNewest(s.packetTimes, a.ts, cfg.timeWindow);
        if times != [] {
          var last := times[|times| - 1];
          assert last <= a.ts by {
            assert DeauthTimes(history)[|times| - 1] == last;
            assert DeauthTimes(history)[|times|] == a.ts;
          }
          WindowLater(times, last, a.ts, cfg.timeWindow);
        }
        WindowSorted(DeauthTimes(history), a.ts, cfg.timeWindow);
      } else {
        assert DeauthTimes(history) == times;
      }
    }
  }

  /** Appending the same element to both sides keeps a subsequence a subsequence. */
  lemma {:induction false} SubsequenceAppend(a: seq<real>, b: seq<real>, x: real)
    requires IsSubsequence(a, b)
    ensures IsSubsequence(a + [x], b + [x])
    decreases |b|
  {
    if b == [] {
      assert a == [];
      assert [x][1..] == [];
    } else if a == [] {
      assert a + [x] == [x];
      assert (b + [x])[1..] == b[1..] + [x];
      SubsequenceAppend(a, b[1..], x);
      SubsequenceDropHead([x], b + [x]);
    } else if a[0] == b[0] {
      assert (a + [x])[1..] == a[1..] + [x];
      assert (b + [x])[1..] == b[1..] + [x];
      SubsequenceAppend(a[1..], b[1..], x);
    } else {
      assert (b + [x])[1..] == b[1..] + [x];
      SubsequenceAppend(a, b[1..], x);
    }
  }

  /** Being a subsequence is transitive. */
  lemma {:induction false} SubsequenceTrans(a: seq<real>, b: seq<real>, c: seq<real>)
    requires IsSubsequence(a, b) && IsSubsequence(b, c)
    ensures IsSubsequence(a, c)
    decreases |c|
  {
    if a != [] && c != [] {
      if b[0] == c[0] {
        if a[0] == b[0] {
          SubsequenceTrans(a[1..], b[1..], c[1..]);
        } else {
          SubsequenceTrans(a, b[1..], c[1..]);
        }
      } else {
        SubsequenceTrans(a, b, c[1..]);
        SubsequenceDropHead(a, c);
      }
    }
  }

  /** Every pair of times, earlier arrival first, lies within `width` of each other. */
  ghost predicate WithinOneWindow(times: seq<real>, width: real) {
    forall i, j :: 0 <= i < j < |times| ==> times[j] - times[i] <= width
  }

  /** One deauthentication time per deauthentication frame. */
  lemma {:induction false} DeauthTimesLength(history: seq<Arrival>)
    ensures |DeauthTimes(history)| == CountDeauth(history)
    decreases |history|
  {
    if history != [] {
      DeauthTimesLength(history[..|history| - 1]);
    }
  }

  /**
   A burst: when every deauthentication frame arrives within `timeWindow` of
   every earlier one, nothing is ever evicted and the window holds every
   deauthentication time, in arrival order.
   */
  lemma {:induction false} RunBurst(cfg: Config, history: seq<Arrival>)
    requires cfg.timeWindow >= 0.0
    requires WithinOneWindow(DeauthTimes(history), cfg.timeWindow)
    ensures Run(cfg, Initial(), history).packetTimes == DeauthTimes(history)
    decreases |history|
  {
    if history != [] {
      var front := history[..|history| - 1];
      var a := history[|history| - 1];
      var times := DeauthTimes(front);
      assert DeauthTimes(history) == times + (if a.pkt.isDeauth then [a.ts] else []);
      assert WithinOneWindow(times, cfg.timeWindow) by {
        assert forall i :: 0 <= i < |times| ==> times[i] == DeauthTimes(history)[i];
      }
      RunBurst(cfg, front);
      if a.pkt.isDeauth {
        var s := Run(cfg, Initial(), front);
        StepWindow(cfg, s, a.pkt, a.ts);
        forall t | t in times ensures InWindow(a.ts, cfg.timeWindow, t) {
          var i :| 0 <= i < |times| && times[i] == t;
          assert DeauthTimes(history)[i] == t && DeauthTimes(history)[|times|] == a.ts;
        }
        WindowKeepsAll(times, a.ts, cfg.timeWindow);
      }
    }
  }

  /**
   In a burst, the alert rule counts frames: a deauthentication frame raises
   an alert iff it is at least the `threshold`-th deauthentication frame seen.
   */
  lemma BurstAlertStep(cfg: Config, history: seq<Arrival>, a: Arrival)
    requires cfg.timeWindow >= 0.0
    requires a.pkt.isDeauth
    requires WithinOneWindow(DeauthTimes(history + [a]), cfg.timeWindow)
    ensures Run(cfg, Initial(), history + [a]).alertsTriggered == Run(cfg, Initial(), history).alertsTriggered + 1
      <==> CountDeauth(history + [a]) >= cfg.threshold
    ensures CountDeauth(history + [a]) < cfg.threshold ==>
      Run(cfg, Initial(), history + [a]).alertsTriggered == Run(cfg, Initial(), history).alertsTriggered
  {
    var h := history + [a];
    assert h[..|h| - 1] == history;
    RunBurst(cfg, h);
    DeauthTimesLength(h);
  }

  /**
   In a burst, the number of alerts is fixed by the number of deauthentication
   frames `n`: every frame from the `threshold`-th on raises one, so there are
   `n - threshold + 1` alerts once `n` reaches the threshold and none before
   (a threshold below one counts as one: every frame alerts).
   */
  lemma {:induction false} RunBurstAlerts(cfg: Config, history: seq<Arrival>)
    requires cfg.timeWindow >= 0.0
    requires WithinOneWindow(DeauthTimes(history), cfg.timeWindow)
    ensures
      var n := CountDeauth(history);
      var t := if cfg.threshold < 1 then 1 else cfg.threshold;
      Run(cfg, Initial(), history).alertsTriggered == if n >= t then n - t + 1 else 0
    decreases |history|
  {
    if history != [] {
      var front := history[..|history| - 1];
      var a := history[|history| - 1];
      var times := DeauthTimes(front);
      assert DeauthTimes(history) == times + (if a.pkt.isDeauth then [a.ts] else []);
      assert WithinOneWindow(times, cfg.timeWindow) by {
        assert forall i :: 0 <= i < |times| ==> times[i] == DeauthTimes(history)[i];
      }
      RunBurstAlerts(cfg, front);
      if a.pkt.isDeauth {
        RunBurst(cfg, history);
        DeauthTimesLength(history);
      }
    }
  }

  /**
   A small run with `threshold` 3 and a one-second window: deauthentication
   frames at 0, 0.5 and 0.9 raise one alert on the third, and a fourth at
   0.95 raises another (the alert is not edge-triggered).
   */
  lemma RefiresWhileAboveThreshold()
    ensures
      var cfg := Config(3, 1.0);
      var p := Packet(true, "aa:bb:cc:dd:ee:ff");
      var s3 := Run(cfg, Initial(), [Arrival(p, 0.0), Arrival(p, 0.5), Arrival(p, 0.9)]);
      var s4 := Step(cfg, s3, p, 0.95);
      s3.alertsTriggered == 1 && |s3.packetTimes| == 3 &&
      s4.alertsTriggered == 2 && |s4.packetTimes| == 4
  {
    var cfg := Config(3, 1.0);
    var p := Packet(true, "aa:bb:cc:dd:ee:ff");
    var mac := {p.addr2};
    var h := [Arrival(p, 0.0), Arrival(p, 0.5), Arrival(p, 0.9)];
    assert h[..2] == [Arrival(p, 0.0), Arrival(p, 0.5)];
    assert h[..2][..1] == [Arrival(p, 0.0)];
    assert h[..2][..1][..0] == [];
    assert Window([0.0], 0.0, 1.0) == [0.0];
    assert Run(cfg, Initial(), h[..1]) == State([0.0], mac, 1, 0);
    assert Window([0.0, 0.5], 0.5, 1.0) == [0.0, 0.5];
    assert Run(cfg, Initial(), h[..2]) == State([0.0, 0.5], mac, 2, 0);
    assert Window([0.0, 0.5, 0.9], 0.9, 1.0) == [0.0, 0.5, 0.9];
    assert [0.0, 0.5] + [0.9] == [0.0, 0.5, 0.9];
    assert h[2] == Arrival(p, 0.9);
    assert Run(cfg, Initial(), h) == Step(cfg, State([0.0, 0.5], mac, 2, 0), p, 0.9);
    assert Run(cfg, Initial(), h) == State([0.0, 0.5, 0.9], mac, 3, 1);
    assert [0.0, 0.5, 0.9] + [0.95] == [0.0, 0.5, 0.9, 0.95];
    assert Window([0.0, 0.5, 0.9, 0.95], 0.95, 1.0) == [0.0, 0.5, 0.9, 0.95];
    assert Step(cfg, State([0.0, 0.5, 0.9], mac, 3, 1), p, 0.95) == State([0.0, 0.5, 0.9, 0.95], mac, 4, 2);
  }

  /**
   The detector object. The four detection fields are updated in place by
   `ProcessPacket`; `history` is the ghost record of every call so far, and
   the object invariant says the fields are `Run` of that history.
   */
  class DeAuthDetector {
    const interface: string
    const threshold: int
    const timeWindow: real

    var packetTimes: seq<real>
    var suspiciousMacs: set<Mac>
    var totalDeauthPackets: nat
    var alertsTriggered: nat

    ghost var history: seq<Arrival>

    function Cfg(): (cfg: Config) {
      Config(threshold, timeWindow)
    }

    function Current(): (s: State)
      reads this
    {
      State(packetTimes, suspiciousMacs, totalDeauthPackets, alertsTriggered)
    }

    ghost predicate Valid()
      reads this
    {
      timeWindow >= 0.0 && Current() == Run(Cfg(), Initial(), history)
    }

    /** A detector listening on `interface` with the given threshold and window, having seen nothing. */
    constructor (interface: string, threshold: int, timeWindow: real)
      requires timeWindow >= 0.0
      ensures Valid() && history == []
      ensures this.interface == interface && this.threshold == threshold && this.timeWindow == timeWindow
      ensures packetTimes == [] && suspiciousMacs == {} && totalDeauthPackets == 0 && alertsTriggered == 0
    {
      this.interface := interface;
      this.threshold := threshold;
      this.timeWindow := timeWindow;
      packetTimes := [];
      suspiciousMacs := {};
      totalDeauthPackets := 0;
      alertsTriggered := 0;
      history := [];
    }

    /**
     Handles one captured frame; `ts` is the clock reading taken for it.
     The new state is `Step` of the old one, the call is added to the
     history, and the alert count stays within the packet count.
     */
    method ProcessPacket(pkt: Packet, ts: real)
      requires Valid()
      modifies this
      ensures Valid()
      ensures history == old(history) + [Arrival(pkt, ts)]
      ensures Current() == Step(Cfg(), old(Current()), pkt, ts)
      ensures alertsTriggered <= totalDeauthPackets
    {
      if pkt.isDeauth {
        totalDeauthPackets := totalDeauthPackets + 1;
        packetTimes := packetTimes + [ts];
        suspiciousMacs := suspiciousMacs + {pkt.addr2};
        packetTimes := Window(packetTimes, ts, timeWindow);
        if |packetTimes| >= threshold {
          alertsTriggered := alertsTriggered + 1;
        }
      }
      history := history + [Arrival(pkt, ts)];
      assert history[..|history| - 1] == old(history);
      RunCounters(Cfg(), history);
    }
  }
}
