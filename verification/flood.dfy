/** Flood control (`limits.rs`): a token bucket in thousandths of a token over a clock the caller supplies. */
module Flood {
  import opened Bytes

  const U64_MAX: nat := 0xFFFF_FFFF_FFFF_FFFF

  datatype Bucket = Bucket(millitokens: nat, capacity: nat, per10s: u32, lastMs: nat, suppressed: nat)

  function New(per10s: u32, burst: u32, nowMs: nat): Bucket {
    Bucket(burst * 1000, burst * 1000, per10s, nowMs, 0)
  }

  ghost predicate Valid(b: Bucket) {
    b.millitokens <= b.capacity < 0x1_0000_0000 * 1000
  }

  function Elapsed(b: Bucket, nowMs: nat): nat {
    if nowMs > b.lastMs then nowMs - b.lastMs else 0
  }

  /** The multiplication saturates at 64 bits, and the division drops the remainder. */
  function Gained(elapsed: nat, per10s: u32): nat {
    Min(elapsed * per10s, U64_MAX) / 10
  }

  function Refilled(b: Bucket, nowMs: nat): Bucket {
    var elapsed := Elapsed(b, nowMs);
    if elapsed == 0 then b
    else b.(lastMs := nowMs, millitokens := Min(b.millitokens + Gained(elapsed, b.per10s), b.capacity))
  }

  function Check(b: Bucket, nowMs: nat): (Bucket, bool) {
    var r := Refilled(b, nowMs);
    if r.millitokens >= 1000 then (r.(millitokens := r.millitokens - 1000), true)
    else (r.(suppressed := r.suppressed + 1), false)
  }

  /** The bucket after a check at each of the times. */
  function Run(b: Bucket, ts: seq<nat>): Bucket {
    if ts == [] then b else Check(Run(b, ts[..|ts| - 1]), ts[|ts| - 1]).0
  }

  /** How many of them were allowed. */
  function Allowed(b: Bucket, ts: seq<nat>): nat {
    if ts == [] then 0
    else Allowed(b, ts[..|ts| - 1]) + if Check(Run(b, ts[..|ts| - 1]), ts[|ts| - 1]).1 then 1 else 0
  }

  // ---- One check ----

  lemma ProductIsNatural(elapsed: nat, per10s: u32)
    ensures elapsed * per10s >= 0
  {
  }

  /** The sum of a refill, before it is cut to the capacity, fits 64 bits. */
  ghost predicate SumFits(b: Bucket, nowMs: nat) {
    b.millitokens + Gained(Elapsed(b, nowMs), b.per10s) <= U64_MAX
  }

  /** The bucket stays within its capacity, and the sum in between fits 64 bits. */
  lemma CheckIsSafe(b: Bucket, nowMs: nat)
    requires Valid(b)
    ensures Valid(Check(b, nowMs).0)
    ensures SumFits(b, nowMs)
  {
    ProductIsNatural(Elapsed(b, nowMs), b.per10s);
  }

  /** What a check spends and leaves comes from what was there and from the time that passed. */
  lemma CheckPays(b: Bucket, nowMs: nat)
    ensures
      var (c, ok) := Check(b, nowMs);
      && c.lastMs == Max(b.lastMs, nowMs) && c.per10s == b.per10s && c.capacity == b.capacity
      && 10 * c.millitokens + (if ok then 10000 else 0) <= 10 * b.millitokens + b.per10s * (c.lastMs - b.lastMs)
      && c.suppressed == b.suppressed + (if ok then 0 else 1)
  {
    ProductIsNatural(Elapsed(b, nowMs), b.per10s);
    if nowMs > b.lastMs {
      assert Elapsed(b, nowMs) * b.per10s == b.per10s * (nowMs - b.lastMs);
    }
  }

  // ---- Any number of checks, on any clock ----

  lemma Distribute(p: nat, a: int, b: int)
    ensures p * a + p * b == p * (a + b)
  {
  }

  /** Main account: over any run of checks at any times, what was allowed is paid by the first content and the time passed. */
  lemma {:induction false} RunPays(b: Bucket, ts: seq<nat>)
    ensures
      var c := Run(b, ts);
      && c.per10s == b.per10s && c.capacity == b.capacity && c.lastMs >= b.lastMs
      && 10 * c.millitokens + 10000 * Allowed(b, ts) <= 10 * b.millitokens + b.per10s * (c.lastMs - b.lastMs)
      && c.suppressed == b.suppressed + |ts| - Allowed(b, ts)
    decreases |ts|
  {
    hide Check;
    if ts != [] {
      var d := Run(b, ts[..|ts| - 1]);
      RunPays(b, ts[..|ts| - 1]);
      CheckPays(d, ts[|ts| - 1]);
      Distribute(b.per10s, d.lastMs - b.lastMs, Run(b, ts).lastMs - d.lastMs);
    }
  }

  /** Over any run on any clock the content stays within the capacity and every sum on the way fits 64 bits. */
  lemma {:induction false} RunIsSafe(b: Bucket, ts: seq<nat>)
    requires Valid(b)
    ensures Valid(Run(b, ts))
    ensures forall i | 0 <= i < |ts| :: SumFits(Run(b, ts[..i]), ts[i])
    decreases |ts|
  {
    hide Check, Valid, Run, SumFits;
    if ts == [] {
      assert Run(b, []) == b by { NoChecks(b); }
    } else {
      var most := ts[..|ts| - 1];
      RunIsSafe(b, most);
      CheckIsSafe(Run(b, most), ts[|ts| - 1]);
      RunByCheck(b, ts);
      forall i | 0 <= i < |ts| ensures SumFits(Run(b, ts[..i]), ts[i]) {
        if i < |most| { assert most[..i] == ts[..i] && most[i] == ts[i]; }
      }
    }
  }

  lemma NoChecks(b: Bucket)
    ensures Run(b, []) == b && Allowed(b, []) == 0
  {
  }

  lemma RunByCheck(b: Bucket, ts: seq<nat>)
    requires ts != []
    ensures Run(b, ts) == Check(Run(b, ts[..|ts| - 1]), ts[|ts| - 1]).0
  {
  }

  ghost predicate NonDecreasing(ts: seq<nat>) {
    forall i, j | 0 <= i <= j < |ts| :: ts[i] <= ts[j]
  }

  /** The clock of the bucket is the latest time it has seen. */
  lemma {:induction false} RunClock(b: Bucket, ts: seq<nat>)
    requires NonDecreasing(ts) && ts != []
    ensures Run(b, ts).lastMs == Max(b.lastMs, ts[|ts| - 1])
    decreases |ts|
  {
    hide Check;
    var most := ts[..|ts| - 1];
    CheckPays(Run(b, most), ts[|ts| - 1]);
    if most != [] {
      assert NonDecreasing(most) && most[|most| - 1] == ts[|ts| - 2] <= ts[|ts| - 1];
      RunClock(b, most);
    }
  }

  lemma {:induction false} RunFromSecond(b: Bucket, ts: seq<nat>)
    requires ts != []
    ensures
      var (c, ok) := Check(b, ts[0]);
      && Run(b, ts) == Run(c, ts[1..])
      && Allowed(b, ts) == Allowed(c, ts[1..]) + if ok then 1 else 0
    decreases |ts|
  {
    hide Check;
    var most := ts[..|ts| - 1];
    if most == [] {
      assert ts[1..] == [];
    } else {
      RunFromSecond(b, most);
      assert ts[1..][..|ts| - 2] == most[1..];
      assert most[0] == ts[0] && ts[1..][|ts| - 2] == ts[|ts| - 1];
    }
  }

  /**
   * Main result: in any consecutive stretch of checks, between times `t1` and `t2`, at most the burst and
   * the sustained rate over that time are let through, whatever came before and whatever the roundings were.
   */
  lemma WindowBound(b: Bucket, ts: seq<nat>)
    requires Valid(b) && NonDecreasing(ts) && ts != []
    ensures 10000 * Allowed(b, ts) <= 10 * b.capacity + b.per10s * (ts[|ts| - 1] - ts[0])
  {
    hide Run, Allowed;
    var (c, ok) := Check(b, ts[0]);
    CheckPays(b, ts[0]);
    RunFromSecond(b, ts);
    RunPays(c, ts[1..]);
    RunClock(b, ts);
    var passed := Run(b, ts).lastMs - c.lastMs;
    assert passed <= ts[|ts| - 1] - ts[0];
    Larger(b.per10s, passed, ts[|ts| - 1] - ts[0]);
    assert 10 * c.millitokens + (if ok then 10000 else 0) <= 10 * b.capacity;
  }

  lemma Larger(p: nat, a: int, b: int)
    requires a <= b
    ensures p * a <= p * b
  {
  }

  // ---- Who is never suppressed ----

  /** Each message comes long enough after the last for a whole token. */
  ghost predicate Spaced(per10s: u32, lastMs: nat, ts: seq<nat>) {
    && (ts != [] ==> ts[0] >= lastMs)
    && forall i | 0 < i < |ts| :: ts[i - 1] <= ts[i] && (ts[i] - ts[i - 1]) * per10s >= 10000
  }

  lemma FullTokenGained(elapsed: nat, per10s: u32)
    requires elapsed * per10s >= 10000
    ensures Gained(elapsed, per10s) >= 1000 && elapsed > 0
  {
  }

  lemma {:induction false} SpacedRun(per10s: u32, burst: u32, t0: nat, ts: seq<nat>)
    requires burst >= 1 && Spaced(per10s, t0, ts)
    ensures Allowed(New(per10s, burst, t0), ts) == |ts|
    ensures
      var c := Run(New(per10s, burst, t0), ts);
      c.capacity == burst * 1000 && c.per10s == per10s && (if ts == [] then c == New(per10s, burst, t0) else c.lastMs == ts[|ts| - 1])
    decreases |ts|
  {
    hide Gained;
    if ts != [] {
      var most := ts[..|ts| - 1];
      SpacedRun(per10s, burst, t0, most);
      var c := Run(New(per10s, burst, t0), most);
      var now := ts[|ts| - 1];
      if most == [] {
        assert Refilled(c, now).millitokens == burst * 1000;
      } else {
        assert c.lastMs == ts[|ts| - 2];
        FullTokenGained(now - c.lastMs, per10s);
        assert Refilled(c, now).millitokens >= 1000;
      }
    }
  }

  /** Message `i` at `t0 + i * gap`. */
  function Steady(t0: nat, gap: nat, n: nat): (ts: seq<nat>)
    ensures |ts| == n
  {
    seq(n, i requires 0 <= i => At(t0, gap, i))
  }

  function At(t0: nat, gap: nat, i: nat): nat {
    t0 + i * gap
  }

  lemma AtNext(t0: nat, gap: nat, i: nat)
    ensures At(t0, gap, i + 1) == At(t0, gap, i) + gap && At(t0, gap, i) >= t0
  {
    assert (i + 1) * gap == i * gap + gap;
  }

  lemma SteadyIsSpaced(per10s: u32, t0: nat, gap: nat, n: nat)
    requires gap * per10s >= 10000
    ensures Spaced(per10s, t0, Steady(t0, gap, n))
  {
    hide At;
    var ts := Steady(t0, gap, n);
    AtNext(t0, gap, 0);
    forall i | 0 < i < |ts| ensures ts[i - 1] <= ts[i] && (ts[i] - ts[i - 1]) * per10s >= 10000 {
      AtNext(t0, gap, i - 1);
      assert ts[i] - ts[i - 1] == gap;
    }
  }

  lemma TooLittleGained(gap: nat, per10s: u32)
    requires gap * per10s < 10000
    ensures Gained(gap, per10s) <= 999
  {
  }

  /** A sender faster than the sustained rate loses something with every message it gets through. */
  lemma {:induction false} FastSenderRunsDry(per10s: u32, burst: u32, t0: nat, gap: nat, n: nat)
    requires gap * per10s < 10000
    requires Allowed(New(per10s, burst, t0), Steady(t0, gap, n)) == n
    ensures
      var c := Run(New(per10s, burst, t0), Steady(t0, gap, n));
      && c.millitokens + n <= burst * 1000 && c.per10s == per10s
      && c.lastMs == if n == 0 then t0 else At(t0, gap, n - 1)
    decreases n
  {
    hide Gained, At;
    if n > 0 {
      var ts := Steady(t0, gap, n);
      var b := New(per10s, burst, t0);
      assert ts[..n - 1] == Steady(t0, gap, n - 1);
      AllowedAtMost(b, ts[..n - 1]);
      FastSenderRunsDry(per10s, burst, t0, gap, n - 1);
      var c := Run(b, ts[..n - 1]);
      AtNext(t0, gap, 0);
      assert At(t0, gap, 0) == t0 by { StartsAt(t0, gap); }
      TooLittleGained(gap, per10s);
      if n > 1 { AtNext(t0, gap, n - 2); }
      assert Elapsed(c, ts[n - 1]) == if n == 1 then 0 else gap;
      assert Refilled(c, ts[n - 1]).millitokens <= c.millitokens + if n == 1 then 0 else 999;
    }
  }

  lemma StartsAt(t0: nat, gap: nat)
    ensures At(t0, gap, 0) == t0
  {
  }

  lemma {:induction false} AllowedAtMost(b: Bucket, ts: seq<nat>)
    ensures Allowed(b, ts) <= |ts|
    decreases |ts|
  {
    hide Check, Run;
    if ts != [] { AllowedAtMost(b, ts[..|ts| - 1]); }
  }

  /** Main result: a steady sender is never suppressed exactly when there is a burst and its gap earns a whole token. */
  lemma SteadySenderIff(per10s: u32, burst: u32, t0: nat, gap: nat)
    ensures (forall n: nat :: Allowed(New(per10s, burst, t0), Steady(t0, gap, n)) == n)
      <==> burst >= 1 && gap * per10s >= 10000
  {
    hide Run, Allowed, Steady, At;
    if gap * per10s < 10000 {
      var n := burst * 1000 + 1;
      if Allowed(New(per10s, burst, t0), Steady(t0, gap, n)) == n {
        FastSenderRunsDry(per10s, burst, t0, gap, n);
      }
    } else if burst == 0 {
      NoBurst(per10s, t0, gap);
    } else {
      forall n: nat ensures Allowed(New(per10s, burst, t0), Steady(t0, gap, n)) == n {
        SteadyIsSpaced(per10s, t0, gap, n);
        SpacedRun(per10s, burst, t0, Steady(t0, gap, n));
      }
    }
  }

  lemma NoBurst(per10s: u32, t0: nat, gap: nat)
    ensures Allowed(New(per10s, 0, t0), Steady(t0, gap, 1)) == 0
  {
    var ts := Steady(t0, gap, 1);
    assert ts[..0] == [];
    assert Allowed(New(per10s, 0, t0), []) == 0;
  }

  function Before(lastMs: nat, ts: seq<nat>, i: nat): nat
    requires i < |ts|
  {
    if i == 0 then lastMs else ts[i - 1]
  }

  /** Each check comes so soon after the one before that the gain rounds to nothing. */
  ghost predicate Frequent(per10s: u32, lastMs: nat, ts: seq<nat>) {
    forall i | 0 <= i < |ts| :: Before(lastMs, ts, i) <= ts[i] && (ts[i] - Before(lastMs, ts, i)) * per10s < 10
  }

  /** The remainder is lost at every check: polled often enough, an empty bucket never earns a token, however long. */
  lemma {:induction false} FrequentChecksEarnNothing(b: Bucket, ts: seq<nat>)
    requires b.millitokens < 1000 && Frequent(b.per10s, b.lastMs, ts)
    ensures Allowed(b, ts) == 0
    ensures
      var c := Run(b, ts);
      c.millitokens < 1000 && c.per10s == b.per10s && c.lastMs == if ts == [] then b.lastMs else ts[|ts| - 1]
    decreases |ts|
  {
    hide Gained;
    if ts != [] {
      var most, now := ts[..|ts| - 1], ts[|ts| - 1];
      forall i | 0 <= i < |most|
        ensures Before(b.lastMs, most, i) <= most[i] && (most[i] - Before(b.lastMs, most, i)) * b.per10s < 10
      {
        assert Before(b.lastMs, most, i) == Before(b.lastMs, ts, i) && most[i] == ts[i];
      }
      FrequentChecksEarnNothing(b, most);
      var c := Run(b, most);
      assert c.lastMs == Before(b.lastMs, ts, |ts| - 1);
      assert Elapsed(c, now) == now - Before(b.lastMs, ts, |ts| - 1);
      GainsNothing(Elapsed(c, now), b.per10s);
    }
  }

  lemma GainsNothing(elapsed: nat, per10s: u32)
    requires elapsed * per10s < 10
    ensures Gained(elapsed, per10s) == 0
  {
  }

  lemma SomethingGained(gap: nat, per10s: u32)
    requires gap * per10s >= 10
    ensures Gained(gap, per10s) >= 1 && gap > 0
  {
  }

  /** A poll that earns anything at all fills the bucket by at least a thousandth each time. */
  lemma {:induction false} SlowPollsFill(b: Bucket, gap: nat, n: nat)
    requires b.millitokens < 1000 <= b.capacity && gap * b.per10s >= 10
    requires Allowed(b, Steady(b.lastMs, gap, n)) == 0
    ensures
      var c := Run(b, Steady(b.lastMs, gap, n));
      && c.millitokens < 1000 && c.millitokens + 1 >= n && c.capacity == b.capacity && c.per10s == b.per10s
      && c.lastMs == if n == 0 then b.lastMs else At(b.lastMs, gap, n - 1)
    decreases n
  {
    hide Gained, At;
    if n > 0 {
      var ts := Steady(b.lastMs, gap, n);
      assert ts[..n - 1] == Steady(b.lastMs, gap, n - 1);
      SlowPollsFill(b, gap, n - 1);
      var c := Run(b, ts[..n - 1]);
      StartsAt(b.lastMs, gap);
      SomethingGained(gap, b.per10s);
      if n > 1 { AtNext(b.lastMs, gap, n - 2); }
      assert Elapsed(c, ts[n - 1]) == if n == 1 then 0 else gap;
    }
  }

  lemma SteadyIsFrequent(per10s: u32, t0: nat, gap: nat, n: nat)
    requires gap * per10s < 10
    ensures Frequent(per10s, t0, Steady(t0, gap, n))
  {
    hide At;
    var ts := Steady(t0, gap, n);
    StartsAt(t0, gap);
    forall i | 0 <= i < |ts| ensures Before(t0, ts, i) <= ts[i] && (ts[i] - Before(t0, ts, i)) * per10s < 10 {
      if i > 0 {
        AtNext(t0, gap, i - 1);
        assert ts[i] - ts[i - 1] == gap;
      } else {
        assert ts[0] - Before(t0, ts, 0) == 0;
      }
    }
  }

  /** Main result: steady polls never earn an empty bucket a token exactly when each of them earns less than a thousandth. */
  lemma SteadyPollsEarnNothingIff(b: Bucket, gap: nat)
    requires b.millitokens < 1000 <= b.capacity
    ensures (forall n: nat :: Allowed(b, Steady(b.lastMs, gap, n)) == 0) <==> gap * b.per10s < 10
  {
    hide Run, Allowed, Steady, At;
    if gap * b.per10s < 10 {
      forall n: nat ensures Allowed(b, Steady(b.lastMs, gap, n)) == 0 {
        SteadyIsFrequent(b.per10s, b.lastMs, gap, n);
        FrequentChecksEarnNothing(b, Steady(b.lastMs, gap, n));
      }
    } else if Allowed(b, Steady(b.lastMs, gap, 1001)) == 0 {
      SlowPollsFill(b, gap, 1001);
    }
  }

  const FIVE_AT_ONCE: seq<nat> := [0, 0, 0, 0, 0]

  /** A burst of five, all let through, leaves the bucket empty. */
  lemma BurstEmpties()
    ensures Allowed(New(1, 5, 0), FIVE_AT_ONCE) == 5 && Run(New(1, 5, 0), FIVE_AT_ONCE) == Bucket(0, 5000, 1, 0, 0)
  {
    var b, ts := New(1, 5, 0), FIVE_AT_ONCE;
    assert ts[..4][..3] == ts[..3] && ts[..3][..2] == ts[..2] && ts[..2][..1] == ts[..1] && ts[..1][..0] == [];
    assert Run(b, ts[..1]) == Bucket(4000, 5000, 1, 0, 0) && Allowed(b, ts[..1]) == 1;
    assert Run(b, ts[..2]) == Bucket(3000, 5000, 1, 0, 0) && Allowed(b, ts[..2]) == 2;
    assert Run(b, ts[..3]) == Bucket(2000, 5000, 1, 0, 0) && Allowed(b, ts[..3]) == 3;
    assert Run(b, ts[..4]) == Bucket(1000, 5000, 1, 0, 0) && Allowed(b, ts[..4]) == 4;
  }

  lemma {:induction false} RunSplits(b: Bucket, a: seq<nat>, ts: seq<nat>)
    ensures Run(b, a + ts) == Run(Run(b, a), ts) && Allowed(b, a + ts) == Allowed(b, a) + Allowed(Run(b, a), ts)
    decreases |ts|
  {
    hide Check;
    if ts == [] {
      assert a + ts == a;
    } else {
      RunSplits(b, a, ts[..|ts| - 1]);
      assert (a + ts)[..|a + ts| - 1] == a + ts[..|ts| - 1] && (a + ts)[|a + ts| - 1] == ts[|ts| - 1];
    }
  }

  /**
   One message in ten seconds is the rate. A new sender spends its burst of five and then polls every nine
   milliseconds, for as long as it likes: five messages are all that ever get through.
   */
  lemma PolledEveryNineMs(n: nat)
    ensures Allowed(New(1, 5, 0), FIVE_AT_ONCE + Steady(0, 9, n)) == 5
  {
    hide Run, Allowed, Steady, At;
    BurstEmpties();
    RunSplits(New(1, 5, 0), FIVE_AT_ONCE, Steady(0, 9, n));
    SteadyPollsEarnNothingIff(Bucket(0, 5000, 1, 0, 0), 9);
  }

  // ---- What rounding and the ceiling can cost at most ----

  /** Ten times the content a check at `nowMs` would find without rounding: what was there and was earned, up to the capacity. */
  function Ideal(b: Bucket, nowMs: nat): nat {
    Min(10 * b.millitokens + b.per10s * Elapsed(b, nowMs), 10 * b.capacity)
  }

  /**
   What a check spends and leaves is what was there and was earned, up to the capacity, but for less than a
   thousandth; and the rounding never decides, nor does time ever cost a token.
   */
  lemma CheckIsExact(b: Bucket, nowMs: nat)
    requires Valid(b)
    ensures
      var (c, ok) := Check(b, nowMs);
      var found := c.millitokens + if ok then 1000 else 0;
      && 10 * found <= Ideal(b, nowMs) <= 10 * found + 9
      && found >= b.millitokens
      && (ok <==> Ideal(b, nowMs) >= 10000)
  {
    var elapsed := Elapsed(b, nowMs);
    ProductIsNatural(elapsed, b.per10s);
    assert elapsed * b.per10s == b.per10s * elapsed;
  }

  /** `k` messages at one time. */
  function AtOnce(nowMs: nat, k: nat): (ts: seq<nat>)
    ensures |ts| == k
  {
    seq(k, _ => nowMs)
  }

  /** Main result: of any number of messages at one time, as many are let through as there are whole tokens. */
  lemma {:induction false} BurstIsExact(b: Bucket, nowMs: nat, k: nat)
    requires Valid(b)
    ensures Allowed(b, AtOnce(nowMs, k)) == Min(k, Ideal(b, nowMs) / 10000)
    ensures k > 0 ==>
      var c := Run(b, AtOnce(nowMs, k));
      && Valid(c) && Elapsed(c, nowMs) == 0
      && 10 * c.millitokens <= Ideal(b, nowMs) - 10000 * Allowed(b, AtOnce(nowMs, k)) <= 10 * c.millitokens + 9
    decreases k
  {
    hide Check, Valid;
    if k > 0 {
      var ts := AtOnce(nowMs, k);
      assert ts[..k - 1] == AtOnce(nowMs, k - 1);
      BurstIsExact(b, nowMs, k - 1);
      var d := Run(b, ts[..k - 1]);
      CheckIsExact(d, nowMs);
      CheckIsSafe(d, nowMs);
      CheckPays(d, nowMs);
      if k > 1 { FullHasNoMore(d, nowMs); }
    }
  }

  lemma FullHasNoMore(d: Bucket, nowMs: nat)
    requires Valid(d) && Elapsed(d, nowMs) == 0
    ensures Ideal(d, nowMs) == 10 * d.millitokens
  {
  }

  /** After a pause that earns the whole capacity, `k` messages at once all come through exactly when the burst is that large. */
  lemma FullAfterPause(b: Bucket, nowMs: nat, k: nat)
    requires Valid(b) && nowMs >= b.lastMs && b.per10s * (nowMs - b.lastMs) >= 10 * b.capacity
    ensures Allowed(b, AtOnce(nowMs, k)) == k <==> 1000 * k <= b.capacity
  {
    hide Check, Run, Allowed;
    BurstIsExact(b, nowMs, k);
  }

  /**
   Main result from below, for any checks on any clock: what was allowed and is left falls short of what was there
   and was earned, or else of the capacity, by less than a thousandth a check.
   */
  lemma {:induction false} RunLosesLittle(b: Bucket, ts: seq<nat>)
    requires Valid(b)
    ensures
      var c := Run(b, ts);
      10 * c.millitokens + 10000 * Allowed(b, ts) + 9 * |ts| >=
        Min(10 * b.millitokens + b.per10s * (c.lastMs - b.lastMs), 10 * b.capacity)
    decreases |ts|
  {
    hide Check, Valid, Run, Allowed;
    if ts == [] {
      NoChecks(b);
    } else {
      var most, now := ts[..|ts| - 1], ts[|ts| - 1];
      var d := Run(b, most);
      RunLosesLittle(b, most);
      RunPays(b, most);
      RunIsSafe(b, most);
      CheckIsExact(d, now);
      CheckPays(d, now);
      RunByCheck(b, ts);
      AllowedByCheck(b, ts);
      Distribute(b.per10s, d.lastMs - b.lastMs, Run(b, ts).lastMs - d.lastMs);
      assert Elapsed(d, now) == Run(b, ts).lastMs - d.lastMs;
    }
  }

  /** The refill of a check is neither cut at the capacity nor by the 64 bits of the product. */
  ghost predicate Uncut(b: Bucket, nowMs: nat) {
    && Elapsed(b, nowMs) * b.per10s <= U64_MAX
    && b.millitokens + Gained(Elapsed(b, nowMs), b.per10s) <= b.capacity
  }

  /** Such a check loses at most nine tenths of a thousandth. */
  lemma CheckLosesLittle(b: Bucket, nowMs: nat)
    requires Uncut(b, nowMs)
    ensures
      var (c, ok) := Check(b, nowMs);
      10 * c.millitokens + (if ok then 10000 else 0) + 9 >= 10 * b.millitokens + b.per10s * (c.lastMs - b.lastMs)
  {
    var elapsed := Elapsed(b, nowMs);
    ProductIsNatural(elapsed, b.per10s);
    if nowMs > b.lastMs {
      assert elapsed * b.per10s == b.per10s * (nowMs - b.lastMs);
      assert 10 * Gained(elapsed, b.per10s) + 9 >= elapsed * b.per10s;
    }
  }

  /** As long as no refill is cut, nothing else is lost: neither the burst nor the time that passed. */
  lemma {:induction false} UncutRunLosesLittle(b: Bucket, ts: seq<nat>)
    requires forall i | 0 <= i < |ts| :: Uncut(Run(b, ts[..i]), ts[i])
    ensures
      var c := Run(b, ts);
      10 * c.millitokens + 10000 * Allowed(b, ts) + 9 * |ts| >= 10 * b.millitokens + b.per10s * (c.lastMs - b.lastMs)
    decreases |ts|
  {
    hide Check, Uncut, Run, Allowed;
    if ts == [] {
      NoChecks(b);
    } else {
      var most, now := ts[..|ts| - 1], ts[|ts| - 1];
      forall i | 0 <= i < |most| ensures Uncut(Run(b, most[..i]), most[i]) {
        assert most[..i] == ts[..i] && most[i] == ts[i];
      }
      UncutRunLosesLittle(b, most);
      RunPays(b, most);
      var d := Run(b, most);
      assert Uncut(Run(b, ts[..|ts| - 1]), ts[|ts| - 1]);
      CheckLosesLittle(d, now);
      CheckPays(d, now);
      RunByCheck(b, ts);
      AllowedByCheck(b, ts);
      Distribute(b.per10s, d.lastMs - b.lastMs, Run(b, ts).lastMs - d.lastMs);
    }
  }

  lemma AllowedByCheck(b: Bucket, ts: seq<nat>)
    requires ts != []
    ensures Allowed(b, ts) == Allowed(b, ts[..|ts| - 1]) + if Check(Run(b, ts[..|ts| - 1]), ts[|ts| - 1]).1 then 1 else 0
  {
  }

  // ---- The object ----

  class FloodTracker {
    var millitokens: nat
    const capacity: nat
    const per10s: u32
    var lastMs: nat
    var suppressed: nat

    ghost function View(): Bucket
      reads this
    {
      Bucket(millitokens, capacity, per10s, lastMs, suppressed)
    }

    constructor (per10s: u32, burst: u32, nowMs: nat)
      ensures View() == New(per10s, burst, nowMs) && Valid(View())
    {
      capacity := burst * 1000;
      millitokens := burst * 1000;
      this.per10s, lastMs, suppressed := per10s, nowMs, 0;
    }

    method Refill(nowMs: nat)
      modifies `millitokens, `lastMs
      ensures View() == Refilled(old(View()), nowMs)
    {
      var elapsed := if nowMs > lastMs then nowMs - lastMs else 0;
      if elapsed == 0 { return; }
      lastMs := nowMs;
      var gained := Gained(elapsed, per10s);
      millitokens := Min(millitokens + gained, capacity);
    }

    method CheckMessage(nowMs: nat) returns (allowed: bool)
      requires Valid(View())
      modifies `millitokens, `lastMs, `suppressed
      ensures (View(), allowed) == Check(old(View()), nowMs) && Valid(View())
    {
      hide Refilled;
      CheckIsSafe(View(), nowMs);
      Refill(nowMs);
      if millitokens >= 1000 {
        millitokens := millitokens - 1000;
        allowed := true;
      } else {
        suppressed := suppressed + 1;
        allowed := false;
      }
    }
  }
}
