/** The fixed-window limiter for login attempts, as a state machine over timed calls. */
module RateLimiters {

  datatype HitWindow = HitWindow(count: int, reset: int)

  type Hits = map<string, HitWindow>

  /** One attempt: whether it is allowed, and the counters after it. */
  function Attempt(limit: int, window: nat, hits: Hits, key: string, now: int): (bool, Hits) {
    if key !in hits || now > hits[key].reset then
      (true, hits[key := HitWindow(1, now + window)])
    else
      var w := hits[key];
      (w.count + 1 <= limit, hits[key := HitWindow(w.count + 1, w.reset)])
  }

  class RateLimiter {
    const limit: int
    const window: nat
    var hits: Hits

    constructor (limit: int, window: nat)
      ensures this.limit == limit && this.window == window && hits == map[]
    {
      this.limit, this.window, this.hits := limit, window, map[];
    }

    /** `now` is the clock reading at the start of the call. */
    method Allow(key: string, now: int) returns (ok: bool)
      modifies this
      ensures (ok, hits) == Attempt(limit, window, old(hits), key, now)
    {
      if key !in hits || now > hits[key].reset {
        hits := hits[key := HitWindow(1, now + window)];
        return true;
      }
      var w := hits[key];
      w := w.(count := w.count + 1);
      hits := hits[key := w];
      ok := w.count <= limit;
    }

    method Reset(key: string)
      modifies this
      ensures hits == old(hits) - {key}
    {
      hits := hits - {key};
    }
  }

  // --- whole runs ---

  datatype Call = Try(key: string, now: int) | Forget(key: string)

  function Step(limit: int, window: nat, hits: Hits, c: Call): Hits {
    match c
    case Try(key, now) => Attempt(limit, window, hits, key, now).1
    case Forget(key) => hits - {key}
  }

  function Run(limit: int, window: nat, calls: seq<Call>): Hits {
    if calls == [] then map[] else Step(limit, window, Run(limit, window, calls[..|calls| - 1]), calls[|calls| - 1])
  }

  /** Whether the attempt `c` is allowed after `calls`. */
  predicate Allowed(limit: int, window: nat, calls: seq<Call>, c: Call) {
    c.Try? && Attempt(limit, window, Run(limit, window, calls), c.key, c.now).0
  }

  /** How many attempts of `key` are allowed during `calls` at times in [lo, hi]. */
  function AllowedIn(limit: int, window: nat, calls: seq<Call>, key: string, lo: int, hi: int): nat {
    if calls == [] then 0
    else
      var before, c := calls[..|calls| - 1], calls[|calls| - 1];
      AllowedIn(limit, window, before, key, lo, hi)
      + if c.Try? && c.key == key && lo <= c.now <= hi && Allowed(limit, window, before, c) then 1 else 0
  }

  /** The clock never runs backwards. */
  predicate InOrder(calls: seq<Call>) {
    forall i, j | 0 <= i < j < |calls| && calls[i].Try? && calls[j].Try? :: calls[i].now <= calls[j].now
  }

  predicate Keeps(calls: seq<Call>, key: string) { Forget(key) !in calls }

  function Min(a: int, b: int): int { if a < b then a else b }

  /** The attempts a window really lets through: the first one always passes. */
  function Quota(limit: int): nat { if limit < 1 then 1 else limit }

  /** What holds of a key's current window after any run in which the key is not reset;
      `x` is where an interval of one window length starts. */
  ghost predicate Bounded(limit: int, window: nat, calls: seq<Call>, key: string, x: int) {
    var hits := Run(limit, window, calls);
    var n := AllowedIn(limit, window, calls, key, x, x + window);
    if key !in hits then (forall c | c in calls :: c.Try? ==> c.key != key) && n == 0
    else
      var w := hits[key];
      var start := w.reset - window;
      var used := Min(w.count, Quota(limit));
      && w.count >= 1 && Try(key, start) in calls
      && (forall c | c in calls :: c.Try? && c.key == key ==> c.now <= w.reset)
      && AllowedIn(limit, window, calls, key, start, w.reset) == used
      && n <= (if start < x then used else if start <= x + window then Quota(limit) + used else 2 * Quota(limit))
  }

  lemma {:induction false} NoneLater(limit: int, window: nat, calls: seq<Call>, key: string, lo: int, hi: int)
    requires forall c | c in calls :: c.Try? && c.key == key ==> c.now < lo
    ensures AllowedIn(limit, window, calls, key, lo, hi) == 0
  {
    if calls != [] {
      assert calls[|calls| - 1] in calls;
      NoneLater(limit, window, calls[..|calls| - 1], key, lo, hi);
    }
  }

  lemma RunSnoc(limit: int, window: nat, before: seq<Call>, c: Call)
    ensures Run(limit, window, before + [c]) == Step(limit, window, Run(limit, window, before), c)
  {
    assert (before + [c])[..|before|] == before;
  }

  lemma CountSnoc(limit: int, window: nat, before: seq<Call>, c: Call, key: string, lo: int, hi: int)
    ensures AllowedIn(limit, window, before + [c], key, lo, hi)
         == AllowedIn(limit, window, before, key, lo, hi)
            + if c.Try? && c.key == key && lo <= c.now <= hi && Allowed(limit, window, before, c) then 1 else 0
  {
    hide Allowed, Run;
    assert (before + [c])[..|before|] == before;
  }

  lemma StepBounded(limit: int, window: nat, before: seq<Call>, c: Call, key: string, x: int)
    requires Bounded(limit, window, before, key, x) && c != Forget(key)
    requires c.Try? ==> forall b | b in before && b.Try? :: b.now <= c.now
    ensures Bounded(limit, window, before + [c], key, x)
  {
    hide Run, AllowedIn, Bounded;
    if c.Try? && c.key == key {
      if key !in Run(limit, window, before) || c.now > Run(limit, window, before)[key].reset {
        OpensWindow(limit, window, before, c, x);
      } else {
        WithinWindow(limit, window, before, c, x);
      }
    } else {
      ElsewhereBounded(limit, window, before, c, key, x);
    }
  }

  lemma ElsewhereBounded(limit: int, window: nat, before: seq<Call>, c: Call, key: string, x: int)
    requires Bounded(limit, window, before, key, x) && c != Forget(key) && !(c.Try? && c.key == key)
    ensures Bounded(limit, window, before + [c], key, x)
  {
    hide Run, AllowedIn, Quota;
    RunSnoc(limit, window, before, c);
    CountSnoc(limit, window, before, c, key, x, x + window);
    var hits := Run(limit, window, before);
    if key in hits {
      CountSnoc(limit, window, before, c, key, hits[key].reset - window, hits[key].reset);
    }
  }

  lemma OpensWindow(limit: int, window: nat, before: seq<Call>, c: Call, x: int)
    requires c.Try? && Bounded(limit, window, before, c.key, x)
    requires forall b | b in before && b.Try? :: b.now <= c.now
    requires var hits := Run(limit, window, before); c.key !in hits || c.now > hits[c.key].reset
    ensures Bounded(limit, window, before + [c], c.key, x)
  {
    hide Run, AllowedIn;
    RunSnoc(limit, window, before, c);
    CountSnoc(limit, window, before, c, c.key, x, x + window);
    CountSnoc(limit, window, before, c, c.key, c.now, c.now + window);
    NoneLater(limit, window, before, c.key, c.now, c.now + window);
    if c.now < x {
      NoneLater(limit, window, before, c.key, x, x + window);
    }
    assert c in before + [c];
  }

  lemma WithinWindow(limit: int, window: nat, before: seq<Call>, c: Call, x: int)
    requires c.Try? && Bounded(limit, window, before, c.key, x)
    requires forall b | b in before && b.Try? :: b.now <= c.now
    requires var hits := Run(limit, window, before); c.key in hits && c.now <= hits[c.key].reset
    ensures Bounded(limit, window, before + [c], c.key, x)
  {
    hide Run, AllowedIn;
    var w := Run(limit, window, before)[c.key];
    RunSnoc(limit, window, before, c);
    CountSnoc(limit, window, before, c, c.key, x, x + window);
    CountSnoc(limit, window, before, c, c.key, w.reset - window, w.reset);
    assert Try(c.key, w.reset - window) in before;
  }

  lemma {:induction false} RunsAreBounded(limit: int, window: nat, calls: seq<Call>, key: string, x: int)
    requires InOrder(calls) && Keeps(calls, key)
    ensures Bounded(limit, window, calls, key, x)
    decreases |calls|
  {
    hide Min;
    if calls != [] {
      var before, c := calls[..|calls| - 1], calls[|calls| - 1];
      assert calls == before + [c];
      assert forall b | b in before :: b in calls;
      assert InOrder(before);
      RunsAreBounded(limit, window, before, key, x);
      forall b | b in before && b.Try? && c.Try?
        ensures b.now <= c.now
      {
        var i :| 0 <= i < |before| && before[i] == b;
        assert calls[i] == b;
      }
      StepBounded(limit, window, before, c, key, x);
    }
  }

  /** Over any run with a steady clock, any interval of one window length sees at most
      twice the limit of a key's attempts allowed, whatever other keys do. */
  lemma IntervalBound(limit: int, window: nat, calls: seq<Call>, key: string, x: int)
    requires InOrder(calls) && Keeps(calls, key)
    ensures AllowedIn(limit, window, calls, key, x, x + window) <= 2 * Quota(limit)
  {
    RunsAreBounded(limit, window, calls, key, x);
  }

  /** In its current window a key has been allowed exactly as many attempts as it made, up
      to the limit. */
  lemma WindowBound(limit: int, window: nat, calls: seq<Call>, key: string)
    requires InOrder(calls) && Keeps(calls, key) && key in Run(limit, window, calls)
    ensures var w := Run(limit, window, calls)[key];
      AllowedIn(limit, window, calls, key, w.reset - window, w.reset) == Min(w.count, Quota(limit))
  {
    RunsAreBounded(limit, window, calls, key, 0);
  }

  /** A window never exceeds the limit exactly when the limit is positive: otherwise the
      first attempt passes all the same. */
  lemma LimitHoldsWhenPositive(limit: int, window: nat)
    ensures limit >= 1 <==> (forall calls: seq<Call>, key: string ::
        InOrder(calls) && Keeps(calls, key) && key in Run(limit, window, calls) ==>
          var w := Run(limit, window, calls)[key];
          AllowedIn(limit, window, calls, key, w.reset - window, w.reset) <= limit)
  {
    if limit >= 1 {
      forall calls: seq<Call>, key: string
        | InOrder(calls) && Keeps(calls, key) && key in Run(limit, window, calls)
        ensures var w := Run(limit, window, calls)[key];
          AllowedIn(limit, window, calls, key, w.reset - window, w.reset) <= limit
      {
        WindowBound(limit, window, calls, key);
      }
    } else {
      var calls := [Try("", 0)];
      assert calls[..0] == [] && Run(limit, window, []) == map[];
      assert Run(limit, window, calls) == map["" := HitWindow(1, window)];
      WindowBound(limit, window, calls, "");
    }
  }

  /** The calls that concern one key. */
  function Only(calls: seq<Call>, key: string): seq<Call> {
    if calls == [] then []
    else Only(calls[..|calls| - 1], key) + if calls[|calls| - 1].key == key then [calls[|calls| - 1]] else []
  }

  /** Keys are independent: what a key's attempts are answered depends on its own calls
      alone. */
  lemma {:induction false} KeysAreIndependent(limit: int, window: nat, calls: seq<Call>, key: string, now: int)
    ensures var hits, own := Run(limit, window, calls), Run(limit, window, Only(calls, key));
      && (key in hits <==> key in own) && (key in hits ==> hits[key] == own[key])
      && (Allowed(limit, window, calls, Try(key, now)) <==> Allowed(limit, window, Only(calls, key), Try(key, now)))
    decreases |calls|
  {
    hide Run, Step, Allowed;
    if calls != [] {
      var before, c := calls[..|calls| - 1], calls[|calls| - 1];
      var own := Only(before, key);
      assert calls == before + [c];
      KeysAreIndependent(limit, window, before, key, now);
      RunSnoc(limit, window, before, c);
      RunSnoc(limit, window, own, c);
      StepByKey(limit, window, Run(limit, window, before), Run(limit, window, own), c, key);
      if c.key != key {
        assert own + [] == own;
      }
    } else {
      assert Only(calls, key) == calls;
    }
    AllowedByEntry(limit, window, calls, Only(calls, key), key, now);
  }

  /** Two tables agree on a key. */
  predicate SameEntry(a: Hits, b: Hits, key: string) {
    (key in a <==> key in b) && (key in a ==> a[key] == b[key])
  }

  /** A call changes the entry of its own key alone, and by that entry alone. */
  lemma StepByKey(limit: int, window: nat, a: Hits, b: Hits, c: Call, key: string)
    requires SameEntry(a, b, key)
    ensures if c.key == key then SameEntry(Step(limit, window, a, c), Step(limit, window, b, c), key)
      else SameEntry(Step(limit, window, a, c), b, key)
  {
  }

  lemma AllowedByEntry(limit: int, window: nat, x: seq<Call>, y: seq<Call>, key: string, now: int)
    requires SameEntry(Run(limit, window, x), Run(limit, window, y), key)
    ensures Allowed(limit, window, x, Try(key, now)) <==> Allowed(limit, window, y, Try(key, now))
  {
    hide Run;
  }

  // --- when an attempt is allowed ---

  /** How many attempts of `key` were made. */
  function Tries(calls: seq<Call>, key: string): nat {
    if calls == [] then 0
    else
      var c := calls[|calls| - 1];
      Tries(calls[..|calls| - 1], key) + if c.Try? && c.key == key then 1 else 0
  }

  /** A key's window opened with one of its attempts, and counts no more than it made. */
  lemma {:induction false} WindowsAreOwn(limit: int, window: nat, calls: seq<Call>, key: string)
    ensures var hits := Run(limit, window, calls);
      key in hits ==> Try(key, hits[key].reset - window) in calls && 1 <= hits[key].count <= Tries(calls, key)
    decreases |calls|
  {
    hide Run;
    if calls == [] {
      assert Run(limit, window, calls) == map[] by { EmptyRun(limit, window); }
    } else {
      var before, c := calls[..|calls| - 1], calls[|calls| - 1];
      assert calls == before + [c];
      WindowsAreOwn(limit, window, before, key);
      RunSnoc(limit, window, before, c);
      assert forall x | x in before :: x in calls;
      assert c in calls;
    }
  }

  lemma EmptyRun(limit: int, window: nat)
    ensures Run(limit, window, []) == map[]
  {
  }

  /** Nobody is locked out for good: after any run, an attempt is allowed when the key made
      none in the last window length, when it made fewer than the limit, and right after it
      was reset. */
  lemma AttemptsAreAllowedAgain(limit: int, window: nat, calls: seq<Call>, key: string, now: int)
    ensures (forall c | c in calls && c.Try? && c.key == key :: c.now + window < now)
        ==> Allowed(limit, window, calls, Try(key, now))
    ensures Tries(calls, key) < limit ==> Allowed(limit, window, calls, Try(key, now))
    ensures Allowed(limit, window, calls + [Forget(key)], Try(key, now))
  {
    WindowsAreOwn(limit, window, calls, key);
    RunSnoc(limit, window, calls, Forget(key));
    hide Run, Tries;
    if forall c | c in calls && c.Try? && c.key == key :: c.now + window < now {
      var hits := Run(limit, window, calls);
      if key in hits {
        assert Try(key, hits[key].reset - window) in calls;
      }
    }
  }

  /** `n` attempts of a key, all at the time `now`. */
  function Burst(key: string, now: int, n: nat): seq<Call> { seq(n, _ => Try(key, now)) }

  lemma {:induction false} BurstCounts(limit: int, window: nat, calls: seq<Call>, key: string, now: int, n: nat)
    requires n >= 1
    requires forall c | c in calls && c.Try? && c.key == key :: c.now + window < now
    ensures var hits := Run(limit, window, calls + Burst(key, now, n));
      key in hits && hits[key] == HitWindow(n, now + window)
    decreases n
  {
    hide Run;
    var all := calls + Burst(key, now, n);
    assert all == calls + Burst(key, now, n - 1) + [Try(key, now)];
    RunSnoc(limit, window, calls + Burst(key, now, n - 1), Try(key, now));
    if n > 1 {
      BurstCounts(limit, window, calls, key, now, n - 1);
    } else {
      assert calls + Burst(key, now, 0) == calls;
      WindowsAreOwn(limit, window, calls, key);
    }
  }

  /** Of a burst of attempts in a fresh window, exactly the first ones pass, as many as the
      limit says but always one, and any attempt until the window ends is refused. */
  lemma BurstsAreCutOff(limit: int, window: nat, calls: seq<Call>, key: string, now: int, n: nat, later: int)
    requires forall c | c in calls && c.Try? && c.key == key :: c.now + window < now
    requires now <= later <= now + window
    ensures Allowed(limit, window, calls + Burst(key, now, n), Try(key, later)) <==> n == 0 || n < limit
  {
    hide Run;
    if n == 0 {
      assert calls + Burst(key, now, 0) == calls;
      AttemptsAreAllowedAgain(limit, window, calls, key, later);
    } else {
      BurstCounts(limit, window, calls, key, now, n);
    }
  }
}
