# DeAuthShield detector — a Dafny model

DeAuthShield watches 802.11 traffic for deauthentication floods. Its
detection core is the `DeAuthDetector` class of `detector.py`: for every
captured frame that carries a `Dot11Deauth` layer, `process_packet`

1. adds one to `total_deauth_packets`,
2. takes a clock reading `ts` and appends it to `packet_times`,
3. adds the frame's transmitter address `addr2` to the set `suspicious_macs`,
4. rebuilds `packet_times`, keeping (in order) every entry `t` with
   `ts - t <= time_window`,
5. if the rebuilt list still holds at least `threshold` entries, raises an
   alert and adds one to `alerts_triggered`.

Frames without a deauthentication layer are ignored. The alert is
level-triggered: it fires again on every deauthentication frame for which
the window is at or above the threshold.

The project has two modules.

- `SlidingWindow` (window.dfy) is the filter of step 4 as a function,
  `Window(times, now, width)`. Lemmas about it show that the filter is exact
  (a time is kept iff it was recorded and is still in the window), that it
  keeps the original order (the result is a subsequence of its input), that
  it keeps a sorted list sorted, and that the time just appended always
  survives when the width is non-negative.
- `Detector` (detector.dfy) holds the detector state as a datatype `State`,
  the effect of one `process_packet` call as the function `Step`, and the
  effect of a whole history of calls as `Run`. Lemmas about `Step` give the
  per-frame promises. Lemmas about `Run` give the promises over any history
  of calls from a fresh detector: the counters, the address set and the
  window. The class `DeAuthDetector` has the four fields and updates them in
  place. Its method `ProcessPacket` is proved to follow `Step`. A ghost
  `history` records every call made, and the object invariant `Valid()`
  states that the fields equal `Run` of that history. So every `Run` lemma
  holds of every reachable object.

Timestamps are `real` seconds. The clock reading that `process_packet` takes
with `time.time()` becomes the parameter `ts`.

## Model

| member | source | states |
|---|---|---|
| `Detector.DeAuthDetector.constructor` | detector.py:8-20 | the new detector has an empty window, an empty address set and both counters at zero, keeps the interface, threshold and window it was given, and satisfies the object invariant |
| `Detector.DeAuthDetector.ProcessPacket` | detector.py:25-43 | the four fields after the call are `Step` of the fields before it; the call is added to the history, the object invariant is kept, and the alert count stays within the deauthentication packet count |
| `Detector.Initial` | detector.py:16-19 | a fresh detector's state: empty window, empty address set, both counters zero |
| `Detector.Step` | detector.py:25-43 | one `process_packet` call never lowers a counter or forgets an address, and raises each counter by at most one |
| `Detector.Run` | detector.py:25-43 | processing a history of calls raises the packet counter by exactly the number of deauthentication frames in it, and the alert counter by at most that many |
| `Detector.StepCounters` | detector.py:26-31 | a frame without a deauthentication layer changes no field; a deauthentication frame adds exactly one to the packet counter and exactly its `addr2` to the address set; alerts never grow faster than the packet counter |
| `Detector.StepWindow` | detector.py:29-39 | after a deauthentication frame at `ts` the window is the old entries still within `time_window` of `ts` followed by `ts` itself, so it is never empty and ends with `ts`; a time is in it iff it was old or `ts` and is within the window; it is an order-preserving subsequence of the old list plus `ts`; and it stays ascending when arrivals are non-decreasing |
| `Detector.StepAlert` | detector.py:39-43 | the alert counter goes up by exactly one iff the trimmed window holds at least `threshold` entries, and is unchanged otherwise |
| `Detector.RunCounters` | detector.py:16-31 | from a fresh detector, after any sequence of calls, the packet counter equals the number of deauthentication frames, the address set equals the set of their transmitters, the window is no longer than the packet count, and the alert count never exceeds the packet count |
| `Detector.RunMonotone` | detector.py:27-43 | over a longer sequence of calls neither counter decreases and the address set never loses an address |
| `Detector.RunWindow` | detector.py:29-39 | for any arrival times, once a deauthentication frame was seen the window is non-empty, ends with the most recently arrived deauthentication time (not necessarily the largest, since the clock may go backwards), holds only times within `time_window` of that time, and is an order-preserving subsequence of all deauthentication times |
| `Detector.RunWindowSorted` | detector.py:29-39 | when deauthentication times arrive in non-decreasing order, trimming at each step yields exactly the batch filter of all deauthentication times against the latest one, and the window is ascending |
| `Detector.RunBurst` | detector.py:29-39 | when every deauthentication frame arrives within `time_window` of every earlier one, nothing is evicted: the window is exactly the list of all deauthentication times in arrival order |
| `Detector.BurstAlertStep` | detector.py:39-43 | in such a burst, a deauthentication frame raises an alert iff it is at least the `threshold`-th deauthentication frame, and leaves the alert counter unchanged otherwise |
| `Detector.RunBurstAlerts` | detector.py:16-43 | in such a burst with `n` deauthentication frames, the alert counter is `n - threshold + 1` once `n` reaches the threshold (taken as at least one) and zero before |
| `Detector.RefiresWhileAboveThreshold` | detector.py:40-43 | with threshold 3 and a one-second window, frames at 0, 0.5 and 0.9 give one alert with three entries, and a fourth at 0.95 gives a second alert with four entries |
| `SlidingWindow.Window` | detector.py:39 | the filtered list is never longer than its input |
| `SlidingWindow.WindowMembership` | detector.py:39 | a time is kept iff it is in the input and is within the window of `now` |
| `SlidingWindow.WindowKeepsAll` | detector.py:39 | when every time is within the window of `now`, the filter keeps the list unchanged |
| `SlidingWindow.WindowConcat` | detector.py:39 | filtering a concatenation is the concatenation of the filtered parts |
| `SlidingWindow.WindowKeepsNewest` | detector.py:29-39 | with a non-negative width, the time appended at `now` survives the filter as the last entry |
| `SlidingWindow.WindowSubsequence` | detector.py:39 | the filtered list is an order-preserving subsequence of its input |
| `SlidingWindow.WindowSorted` | detector.py:39 | filtering a sorted list gives a sorted list |
| `SlidingWindow.WindowLater` | detector.py:39 | filtering at an earlier time and then at a later one equals filtering at the later time alone |

## Left out

- Detector.DeAuthDetector.constructor: requires `timeWindow >= 0`. The code never checks `threshold` or `time_window`. With a negative window even the frame just recorded is dropped, and the window lemmas assume a non-negative width. `threshold` is left unconstrained, as in the code. A threshold of zero or less makes every deauthentication frame raise an alert.
- Configuration errors, `stop()`, a closed-session error, a statistics snapshot and a returned alert record are not modelled. None of them exists in detector.py, so the model follows the code.
- `run` and scapy's `sniff` (detector.py:22-23) are live capture on a radio interface, a foreign library call. The `running` flag (detector.py:20) only feeds `sniff`'s stop filter, and `process_packet` never reads it. The `threading.Thread` base class is concurrency plumbing. The interface name is kept as an uninterpreted constant.
- The console messages and log-file writes (detector.py:32-36, 41-42) are I/O and text formatting with `time.ctime`. The model keeps only the state changes of a call that completes, so `log_path` and `console_output` are not fields.
- A failing log write is not modelled. When `log_path` is set but cannot be opened for appending, detector.py:35 raises after the counter, the append and the address set update (detector.py:27-31) and before the trim and the alert (detector.py:39-43). The exception also ends the capture thread. `Step` and `ProcessPacket` always make the complete update, so the model does not capture that partial update with an untrimmed window and no alert.
- The clock (`time.time()`, detector.py:28) is a parameter `ts`. Floating-point rounding of timestamps and of `ts - t` is not modelled; times are exact reals.
- A frame's `addr2` is modelled as a string. scapy can give `None` for a frame without a second address, and the model does not single out that value.
- deauth_simulator.py is not part of this model. It is a demonstration traffic generator driven by `random` and `time.sleep`, plus plots and a Qt interface.
- gui.py and main.py are not part of this model. They hold the Qt form, the text-box parsing and the entry point.
