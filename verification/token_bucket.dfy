/** One client's token bucket, with no map and no eviction. The clock u counts the tokens refilled up
    to each instant; any nondecreasing clock will do. */
module TokenBucket {
  type Clock = real -> real

  ghost predicate Monotone(u: Clock) {
    forall s, t | s <= t :: u(s) <= u(t)
  }

  ghost predicate Ascending(times: seq<real>, t: real) {
    && (forall i | 0 <= i < |times| :: t <= times[i])
    && (forall i, j | 0 <= i < j < |times| :: times[i] <= times[j])
  }

  function Filled(max: real, level: real, gain: real): real {
    if level + gain <= max then level + gain else max
  }

  function Spent(level: real): real {
    if level >= 1.0 then level - 1.0 else level
  }

  /** The results of asking at these times, when the level is `level` at time t. */
  function Ask(max: real, u: Clock, level: real, t: real, times: seq<real>): (r: seq<bool>)
    ensures |r| == |times|
    decreases |times|
  {
    if times == [] then []
    else
      var now := Filled(max, level, u(times[0]) - u(t));
      [now >= 1.0] + Ask(max, u, Spent(now), times[0], times[1..])
  }

  lemma AskCons(max: real, u: Clock, level: real, t: real, first: real, rest: seq<real>)
    ensures var now := Filled(max, level, u(first) - u(t));
            Ask(max, u, level, t, [first] + rest) == [now >= 1.0] + Ask(max, u, Spent(now), first, rest)
  {
    assert ([first] + rest)[1..] == rest;
  }

  /** Saturating refill composes over split intervals. */
  lemma AskLater(max: real, u: Clock, level: real, t: real, now: real, times: seq<real>)
    requires Monotone(u) && t <= now && Ascending(times, now)
    ensures Ask(max, u, level, t, times) == Ask(max, u, Filled(max, level, u(now) - u(t)), now, times)
  {
  }

  /** The grants at times in [from, to]. */
  function Granted(times: seq<real>, results: seq<bool>, from: real, to: real): nat
    requires |times| == |results|
    decreases |times|
  {
    if times == [] then 0
    else
      (if results[0] && from <= times[0] <= to then 1 else 0) + Granted(times[1..], results[1..], from, to)
  }

  lemma {:induction false} NoneAfter(times: seq<real>, results: seq<bool>, from: real, to: real)
    requires |times| == |results| && forall i | 0 <= i < |times| :: times[i] > to
    ensures Granted(times, results, from, to) == 0
    decreases |times|
  {
    if times != [] {
      NoneAfter(times[1..], results[1..], from, to);
    }
  }

  /** The tokens at hand and those refilled pay for every grant up to `to`. */
  lemma {:induction false} GrantsArePaid(max: real, u: Clock, level: real, t: real, times: seq<real>, from: real, to: real)
    requires Monotone(u) && level >= 0.0 && max >= 0.0 && t <= to && Ascending(times, t)
    ensures Granted(times, Ask(max, u, level, t, times), from, to) as real <= level + u(to) - u(t)
    decreases |times|
  {
    if times != [] {
      var t1 := times[0];
      if t1 > to {
        NoneAfter(times, Ask(max, u, level, t, times), from, to);
      } else {
        var now := Filled(max, level, u(t1) - u(t));
        assert u(t) <= u(t1) <= u(to);
        GrantsArePaid(max, u, Spent(now), t1, times[1..], from, to);
      }
    }
  }

  /** A full bucket and the window's refill pay for every grant in the window. */
  lemma {:induction false} WindowBound(max: real, u: Clock, level: real, t: real, times: seq<real>, from: real, to: real)
    requires Monotone(u) && 0.0 <= level <= max && from <= to && Ascending(times, t)
    ensures Granted(times, Ask(max, u, level, t, times), from, to) as real <= max + u(to) - u(from)
    decreases |times|
  {
    assert u(from) <= u(to);
    if times != [] {
      var t1 := times[0];
      var now := Filled(max, level, u(t1) - u(t));
      assert u(t) <= u(t1);
      if t1 < from {
        WindowBound(max, u, Spent(now), t1, times[1..], from, to);
      } else if t1 > to {
        NoneAfter(times, Ask(max, u, level, t, times), from, to);
      } else {
        AskLater(max, u, level, t, t1, times);
        GrantsArePaid(max, u, now, t1, times, from, to);
        assert u(from) <= u(t1);
      }
    }
  }
}
