/**
 The sliding-window filter of the deauthentication detector: the list
 comprehension that keeps, in order, every recorded arrival time `t` with
 `now - t <= width`. Timestamps are reals (seconds since the epoch).
 */
module SlidingWindow {

  /** `t` still counts at time `now` for a window of the given width. */
  predicate InWindow(now: real, width: real, t: real) {
    now - t <= width
  }

  /** The arrival times of `times` that are still in the window at `now`, in their original order. */
  function Window(times: seq<real>, now: real, width: real): (r: seq<real>)
    ensures |r| <= |times|
  {
    if times == [] then []
    else (if InWindow(now, width, times[0]) then [times[0]] else []) + Window(times[1..], now, width)
  }

  /** `s` is ascending. */
  ghost predicate Sorted(s: seq<real>) {
    forall i, j :: 0 <= i < j < |s| ==> s[i] <= s[j]
  }

  /** `a` is obtained from `b` by deleting elements, the rest keeping their order. */
  ghost predicate IsSubsequence(a: seq<real>, b: seq<real>)
    decreases |b|
  {
    if a == [] then true
    else if b == [] then false
    else if a[0] == b[0] then IsSubsequence(a[1..], b[1..])
    else IsSubsequence(a, b[1..])
  }

  /** The filter is exact: a time survives iff it was recorded and is still in the window. */
  lemma {:induction false} WindowMembership(times: seq<real>, now: real, width: real, t: real)
    ensures t in Window(times, now, width) <==> t in times && InWindow(now, width, t)
    decreases |times|
  {
    if times != [] {
      WindowMembership(times[1..], now, width, t);
      assert times == [times[0]] + times[1..];
    }
  }

  /** When every time is still in the window, the filter keeps them all. */
  lemma {:induction false} WindowKeepsAll(times: seq<real>, now: real, width: real)
    requires forall t :: t in times ==> InWindow(now, width, t)
    ensures Window(times, now, width) == times
    decreases |times|
  {
    if times != [] {
      assert forall t :: t in times[1..] ==> t in times;
      WindowKeepsAll(times[1..], now, width);
      assert times == [times[0]] + times[1..];
    }
  }

  /** Filtering distributes over concatenation. */
  lemma {:induction false} WindowConcat(a: seq<real>, b: seq<real>, now: real, width: real)
    ensures Window(a + b, now, width) == Window(a, now, width) + Window(b, now, width)
    decreases |a|
  {
    if a != [] {
      assert (a + b)[1..] == a[1..] + b;
      WindowConcat(a[1..], b, now, width);
    } else {
      assert a + b == b;
    }
  }

  /**
   With a non-negative width the time just appended always survives, at the
   end: the filtered list is never empty and its last entry is `now`.
   */
  lemma WindowKeepsNewest(times: seq<real>, now: real, width: real)
    requires width >= 0.0
    ensures Window(times + [now], now, width) == Window(times, now, width) + [now]
  {
    WindowConcat(times, [now], now, width);
    assert Window([now], now, width) == [now] by {
      assert [now][1..] == [];
    }
  }

  /** Filtering keeps the original order: the result is a subsequence of the input. */
  lemma {:induction false} WindowSubsequence(times: seq<real>, now: real, width: real)
    ensures IsSubsequence(Window(times, now, width), times)
    decreases |times|
  {
    if times != [] {
      WindowSubsequence(times[1..], now, width);
      var rest := Window(times[1..], now, width);
      if InWindow(now, width, times[0]) {
        assert Window(times, now, width) == [times[0]] + rest;
        assert ([times[0]] + rest)[1..] == rest;
      } else {
        assert Window(times, now, width) == rest;
        SubsequenceDropHead(rest, times);
      }
    }
  }

  /** A subsequence of `b[1..]` is a subsequence of `b`. */
  lemma {:induction false} SubsequenceDropHead(a: seq<real>, b: seq<real>)
    requires b != []
    requires IsSubsequence(a, b[1..])
    ensures IsSubsequence(a, b)
    decreases |b|, 0
  {
    if a != [] && a[0] == b[0] {
      SubsequenceTail(a, b[1..]);
    }
  }

  /** Dropping the first element of a subsequence leaves a subsequence. */
  lemma {:induction false} SubsequenceTail(a: seq<real>, b: seq<real>)
    requires a != []
    requires IsSubsequence(a, b)
    ensures IsSubsequence(a[1..], b)
    decreases |b|, 1
  {
    if a[0] != b[0] {
      SubsequenceTail(a, b[1..]);
    }
    if a[1..] != [] {
      SubsequenceDropHead(a[1..], b);
    }
  }

  /** Filtering a sorted list leaves it sorted. */
  lemma {:induction false} WindowSorted(times: seq<real>, now: real, width: real)
    requires Sorted(times)
    ensures Sorted(Window(times, now, width))
    decreases |times|
  {
    if times != [] {
      WindowSorted(times[1..], now, width);
      var rest := Window(times[1..], now, width);
      if InWindow(now, width, times[0]) {
        forall t | t in rest ensures times[0] <= t {
          WindowMembership(times[1..], now, width, t);
        }
        var r := [times[0]] + rest;
        forall i, j | 0 <= i < j < |r| ensures r[i] <= r[j] {
          assert r[j] in rest;
          if i > 0 { assert r[i] == rest[i - 1] && r[j] == rest[j - 1]; }
        }
      }
    }
  }

  /**
   Filtering at an earlier time `t1` and then at a later time `t2` is the same
   as filtering at `t2` alone: whatever is still in the window at `t2` was
   already in it at `t1`.
   */
  lemma {:induction false} WindowLater(times: seq<real>, t1: real, t2: real, width: real)
    requires t1 <= t2
    ensures Window(Window(times, t1, width), t2, width) == Window(times, t2, width)
    decreases |times|
  {
    if times != [] {
      var head := if InWindow(t1, width, times[0]) then [times[0]] else [];
      WindowLater(times[1..], t1, t2, width);
      WindowConcat(head, Window(times[1..], t1, width), t2, width);
      if InWindow(t1, width, times[0]) {
        assert head[1..] == [];
      }
    }
  }
}
