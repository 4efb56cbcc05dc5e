/**
 * The leaky bucket that limits client-initiated TLS renegotiation. The token
 * count, a float that only ever holds whole numbers, is an integer here.
 */
module RenegBucket {

  /** The built-in settings: renegotiations allowed, and the seconds they are allowed in. */
  const DEFAULT_LIMIT := 2
  const DEFAULT_WINDOW := 300

  /** What the reneg_limit_callback option leads to when the limit is exceeded. */
  datatype Callback = Absent | Returned(isTrue: bool)

  /** One handshake: when it starts, and what the callback would say. */
  datatype Handshake = Handshake(time: int, callback: Callback)

  /**
   * The tokens drained per second: a quotient of integers, rounded towards zero. A negative window, which the
   * source does not refuse, makes it negative: then tokens are added as time goes by.
   */
  function Rate(limit: nat, window: int): (r: int)
    requires window != 0
    ensures r == 0 <==> limit < Abs(window)
    ensures r < 0 <==> window < 0 && limit >= -window
  {
    if window > 0 then limit / window else -(limit / -window)
  }

  /** The sign of the window is that of the rate. */
  lemma MirroredRate(limit: nat, window: int)
    requires window != 0
    ensures Rate(limit, -window) == -Rate(limit, window)
  {
  }

  function Abs(x: int): nat {
    if x < 0 then -x else x
  }

  /** The level after a series of handshakes; the first one is the initial handshake and never counts. */
  function Level(rate: int, hs: seq<Handshake>): (level: nat) {
    if |hs| <= 1 then 0
    else
      var n := |hs| - 1;
      var left := Level(rate, hs[..n]) - Drained(rate, hs[n].time - hs[n - 1].time);
      (if left < 0 then 0 else left) + 1
  }

  function Drained(rate: int, seconds: int): int {
    seconds * rate
  }

  /** Whether the connection is to be closed after a series of handshakes. */
  function ShouldClose(limit: nat, rate: int, hs: seq<Handshake>): bool {
    if |hs| <= 1 then false
    else if Level(rate, hs) > limit then hs[|hs| - 1].callback != Returned(true)
    else ShouldClose(limit, rate, hs[..|hs| - 1])
  }

  /** The renegotiations among the handshakes k to n, both included; handshake 0 is the initial one. */
  function Counted(k: nat, n: nat): nat
    requires k <= n
  {
    if k == 0 then n else n - k + 1
  }

  /** How far the handshakes k to n run ahead of the drain. */
  function Burst(rate: int, hs: seq<Handshake>, k: nat, n: nat): int
    requires k <= n < |hs|
  {
    Counted(k, n) - Drained(rate, hs[n].time - hs[k].time)
  }

  lemma DrainedAdds(rate: int, a: int, b: int)
    ensures Drained(rate, a + b) == Drained(rate, a) + Drained(rate, b)
    ensures Drained(rate, 0) == 0
  {
  }

  /**
   * Closed form: after the n-th renegotiation the level is the largest burst that ends there, whatever the sign
   * of the rate and however the clock runs. Returns the handshake at which the burst begins that attains it.
   */
  lemma {:induction false} LevelIsLargestBurst(rate: int, hs: seq<Handshake>) returns (at: nat)
    requires |hs| >= 2
    ensures var n := |hs| - 1;
            && at <= n && Level(rate, hs) == Burst(rate, hs, at, n)
            && forall k | 0 <= k <= n :: Burst(rate, hs, k, n) <= Level(rate, hs)
  {
    hide Drained;
    var n := |hs| - 1;
    var prev := hs[..n];
    var step := hs[n].time - hs[n - 1].time;
    DrainedAdds(rate, 0, 0);
    at := if Drained(rate, step) < 0 then 0 else n;
    if n > 1 {
      var best := LevelIsLargestBurst(rate, prev);
      forall k | 0 <= k < n
        ensures Burst(rate, hs, k, n) == Burst(rate, prev, k, n - 1) + 1 - Drained(rate, step)
      {
        DrainedAdds(rate, hs[n - 1].time - hs[k].time, step);
      }
      at := if Level(rate, prev) - Drained(rate, step) >= 0 then best else n;
    }
  }

  /** Some run of handshakes k to n is more than the limit and the drain together allow. */
  ghost predicate Exceeded(limit: nat, rate: int, hs: seq<Handshake>) {
    exists k, n :: 0 <= k <= n < |hs| && n >= 1 && IsExcess(limit, rate, hs, k, n)
  }

  ghost predicate IsExcess(limit: nat, rate: int, hs: seq<Handshake>, k: nat, n: nat)
    requires k <= n < |hs|
  {
    Counted(k, n) > limit + Drained(rate, hs[n].time - hs[k].time)
  }

  /** Without a callback the connection is to be closed exactly when some run of handshakes was too much. */
  lemma {:induction false} ClosesOnExcess(limit: nat, rate: int, hs: seq<Handshake>)
    requires forall h | h in hs :: h.callback == Absent
    ensures ShouldClose(limit, rate, hs) <==> Exceeded(limit, rate, hs)
  {
    if |hs| >= 2 {
      var n := |hs| - 1;
      var prev := hs[..n];
      ClosesOnExcess(limit, rate, prev);
      var at := LevelIsLargestBurst(rate, hs);
      hide Drained, Counted, Level;
      assert forall k | 0 <= k <= n :: IsExcess(limit, rate, hs, k, n) ==> Burst(rate, hs, k, n) > limit;
      if Level(rate, hs) > limit {
        assert IsExcess(limit, rate, hs, at, n);
      }
      if k, m :| 0 <= k <= m < |prev| && m >= 1 && IsExcess(limit, rate, prev, k, m) {
        assert IsExcess(limit, rate, hs, k, m);
      }
      if k, m :| 0 <= k <= m < |hs| && m >= 1 && IsExcess(limit, rate, hs, k, m) {
        assert m < n ==> IsExcess(limit, rate, prev, k, m);
      }
    }
  }

  /** The level after handshake m. */
  function LevelAt(rate: int, hs: seq<Handshake>, m: nat): nat
    requires m < |hs|
  {
    Level(rate, hs[..m + 1])
  }

  /** The latest excess decides: the connection stays open exactly when its callback returned true. */
  lemma {:induction false} CallbackDecides(limit: nat, rate: int, hs: seq<Handshake>, n: nat)
    requires 1 <= n < |hs| && LevelAt(rate, hs, n) > limit
    requires forall m | n < m < |hs| :: LevelAt(rate, hs, m) <= limit
    ensures ShouldClose(limit, rate, hs) <==> hs[n].callback != Returned(true)
  {
    if |hs| == n + 1 {
      assert hs[..n + 1] == hs;
    } else {
      var prev := hs[..|hs| - 1];
      assert hs[..|hs|] == hs;
      assert LevelAt(rate, hs, |hs| - 1) <= limit;
      forall m | n <= m < |prev|
        ensures LevelAt(rate, prev, m) == LevelAt(rate, hs, m)
      {
        assert prev[..m + 1] == hs[..m + 1];
      }
      CallbackDecides(limit, rate, prev, n);
    }
  }

  /**
   * A limit below the window makes the drain zero: then time does not matter, and the connection is to be
   * closed at the first renegotiation beyond the limit. The built-in settings are of this kind.
   */
  lemma NeverDrains(limit: nat, window: int, hs: seq<Handshake>)
    requires limit < Abs(window)
    requires forall h | h in hs :: h.callback == Absent
    ensures ShouldClose(limit, Rate(limit, window), hs) <==> |hs| - 1 > limit
    ensures Rate(DEFAULT_LIMIT, DEFAULT_WINDOW) == 0
  {
    assert Rate(limit, window) == 0;
    ClosesOnExcess(limit, 0, hs);
    if |hs| - 1 > limit {
      assert IsExcess(limit, 0, hs, 1, |hs| - 1);
    }
  }

  lemma NegativeDrain(rate: int, seconds: nat)
    requires rate < 0
    ensures Drained(rate, seconds) <= 0
  {
  }

  /**
   * With a negative rate and a clock that does not run backwards nothing ever drains: the level is all
   * renegotiations so far and what the time since the initial handshake has added.
   */
  lemma {:induction false} NegativeRateFills(rate: int, hs: seq<Handshake>)
    requires rate < 0 && hs != []
    requires forall i, j | 0 <= i <= j < |hs| :: hs[i].time <= hs[j].time
    ensures Level(rate, hs) == |hs| - 1 - Drained(rate, hs[|hs| - 1].time - hs[0].time)
  {
    hide Drained;
    DrainedAdds(rate, 0, 0);
    if |hs| >= 2 {
      var n := |hs| - 1;
      NegativeRateFills(rate, hs[..n]);
      NegativeDrain(rate, hs[n].time - hs[n - 1].time);
      DrainedAdds(rate, hs[n].time - hs[n - 1].time, hs[n - 1].time - hs[0].time);
    }
  }

  /** One more handshake: the first one starts the clock, every other one drains, counts and decides. */
  lemma OneMore(limit: nat, rate: int, seen: seq<Handshake>, h: Handshake)
    ensures var all := seen + [h];
            if seen == [] then Level(rate, all) == 0 && !ShouldClose(limit, rate, all)
            else
              var left := Level(rate, seen) - Drained(rate, h.time - seen[|seen| - 1].time);
              && Level(rate, all) == (if left < 0 then 0 else left) + 1
              && ShouldClose(limit, rate, all) ==
                 if Level(rate, all) > limit then h.callback != Returned(true) else ShouldClose(limit, rate, seen)
  {
    hide Drained;
    var all := seen + [h];
    if seen != [] {
      assert all[..|all| - 1] == seen;
    }
  }

  lemma NoHandshakes(limit: nat, rate: int)
    ensures Level(rate, []) == 0 && !ShouldClose(limit, rate, [])
  {
  }

  lemma DrainIs(rate: int, elapsed: int)
    ensures Drained(rate, elapsed) == elapsed * rate
  {
  }

  class Bucket {
    const limit: nat
    const window: int
    var prevHandshake: int
    var tokens: int
    var shouldClose: bool
    /** The handshakes so far. */
    ghost var seen: seq<Handshake>

    ghost predicate Valid()
      reads this
    {
      && window != 0
      && (forall h | h in seen :: h.time > 0)
      && prevHandshake == (if seen == [] then 0 else seen[|seen| - 1].time)
      && tokens == Level(Rate(limit, window), seen)
      && shouldClose == ShouldClose(limit, Rate(limit, window), seen)
    }

    constructor (l: nat, w: int)
      requires w != 0
      ensures Valid() && seen == [] && limit == l && window == w
    {
      limit, window := l, w;
      prevHandshake, tokens, shouldClose := 0, 0, false;
      seen := [];
    }

    /** Accounts for a handshake that starts at second now of a positive clock. */
    method LimitHandshake(now: int, callback: Callback)
      requires Valid() && now > 0
      modifies this
      ensures Valid() && seen == old(seen) + [Handshake(now, callback)]
    {
      hide Rate, Level, ShouldClose, Drained;
      ghost var h := Handshake(now, callback);
      OneMore(limit, Rate(limit, window), seen, h);
      NoHandshakes(limit, Rate(limit, window));
      DrainIs(Rate(limit, window), now - prevHandshake);
      seen := seen + [h];
      if prevHandshake == 0 {
        prevHandshake := now;
        return;
      }
      var elapsed := now - prevHandshake;
      prevHandshake := now;
      tokens := tokens - elapsed * Rate(limit, window);
      if tokens < 0 {
        tokens := 0;
      }
      tokens := tokens + 1;
      if tokens > limit {
        shouldClose := true;
        if callback.Returned? && callback.isTrue {
          shouldClose := false;
        }
      }
    }
  }
}
