/** Restart decisions with exponential backoff (crates/pengu-mesh-core/src/autorestart.rs).
    Times are nanoseconds of the monotonic clock; the delay arithmetic is over exact reals. */
module AutoRestart {
  import opened Common

  datatype Config = Config(
    maxRestarts: u32, initialDelayMs: u64, maxDelayMs: u64, backoffFactor: real, stablePeriodMs: u64)

  datatype Decision = Restart(delayMs: nat) | GiveUp(attempts: nat, allowed: nat)

  datatype Tracked = Tracked(attempts: nat, lastCrash: Option<int>, lastStart: Option<int>)

  datatype Event = Start(now: int) | Crash(now: int) | Reset

  function Power(x: real, n: nat): real {
    if n == 0 then 1.0 else x * Power(x, n - 1)
  }

  /** `delay as u64`: truncated, negative to zero, saturating. */
  function ToU64(x: real): (n: nat)
    ensures n <= U64_MAX
  {
    if x <= 0.0 then 0 else Min(x.Floor, U64_MAX)
  }

  /** Up to here an exponent survives the cast to 32 signed bits; above, it comes out negative. */
  const I32_RANGE: int := 0x8000_0000

  function AsI32(n: nat): int {
    var low := n % (2 * I32_RANGE);
    if low < I32_RANGE then low else low - 2 * I32_RANGE
  }

  /** The backoff before truncation: the factor once for every attempt but the first, as long as the
      cast of the exponent is exact. An infinite product is cast to the largest number, and an
      indefinite one to zero. */
  function Wait(c: Config, attempts: nat): real {
    Product(c, AsI32(if attempts > 0 then attempts - 1 else 0))
  }

  function Product(c: Config, exponent: int): real {
    if exponent >= 0 then c.initialDelayMs as real * Power(c.backoffFactor, exponent)
    else
      var divisor := Power(c.backoffFactor, -exponent);
      if divisor != 0.0 then c.initialDelayMs as real * (1.0 / divisor)
      else if c.initialDelayMs == 0 then 0.0
      else U64_MAX as real
  }

  function Delay(c: Config, attempts: nat): nat {
    Min(ToU64(Wait(c, attempts)), c.maxDelayMs)
  }

  /** A delay of `ms` is within the backoff, the cap and 64 bits. No delay always is. */
  predicate Allowed(c: Config, attempts: nat, ms: nat) {
    ms == 0 || (ms as real <= Wait(c, attempts) && ms <= Min(c.maxDelayMs, U64_MAX))
  }

  lemma FloorFits(x: real, ms: nat)
    ensures ms <= ToU64(x) <==> ms == 0 || (ms as real <= x && ms <= U64_MAX)
  {
  }

  lemma DelayIsLargest(c: Config, attempts: nat)
    ensures forall ms: nat :: ms <= Delay(c, attempts) <==> Allowed(c, attempts, ms)
  {
    hide ToU64, Wait;
    forall ms: nat ensures ms <= Delay(c, attempts) <==> Allowed(c, attempts, ms) {
      FloorFits(Wait(c, attempts), ms);
    }
  }

  function Decide(c: Config, attempts: nat): Decision {
    if attempts > c.maxRestarts then GiveUp(attempts, c.maxRestarts) else Restart(Delay(c, attempts))
  }

  /** `now.duration_since(start).as_millis()`. */
  function UptimeMs(start: int, now: int): nat {
    Max(0, now - start) / 1_000_000
  }

  /** Did the instance that crashes at `now` run for the stable period? */
  predicate RanStably(c: Config, lastStart: Option<int>, now: int) {
    lastStart.Some? && UptimeMs(lastStart.value, now) >= c.stablePeriodMs
  }

  function Track(c: Config, t: Tracked, e: Event): Tracked {
    match e
    case Start(now) => t.(lastStart := Some(now))
    case Crash(now) =>
      Tracked((if RanStably(c, t.lastStart, now) then 0 else t.attempts) + 1, Some(now), t.lastStart)
    case Reset => Tracked(0, None, None)
  }

  class RestartTracker {
    const config: Config
    var attempts: nat
    var lastCrash: Option<int>
    var lastStart: Option<int>

    function State(): Tracked
      reads this
    {
      Tracked(attempts, lastCrash, lastStart)
    }

    constructor (config: Config)
      ensures State() == Tracked(0, None, None) && this.config == config
    {
      this.config := config;
      attempts, lastCrash, lastStart := 0, None, None;
    }

    method RecordStart(now: int)
      modifies this
      ensures State() == Track(config, old(State()), Start(now))
    {
      lastStart := Some(now);
    }

    method RecordCrash(now: int)
      modifies this
      ensures State() == Track(config, old(State()), Crash(now))
    {
      if lastStart.Some? {
        var uptime := UptimeMs(lastStart.value, now);
        if uptime >= config.stablePeriodMs {
          attempts := 0;
        }
      }
      attempts := attempts + 1;
      lastCrash := Some(now);
    }

    /** Gives up beyond the budget; otherwise waits the largest whole number of milliseconds within
        the cap that the backoff allows. */
    method ShouldRestart() returns (d: Decision)
      ensures d == Decide(config, attempts)
      ensures attempts > config.maxRestarts ==> d == GiveUp(attempts, config.maxRestarts)
      ensures attempts <= config.maxRestarts ==>
        d.Restart? && forall ms: nat :: ms <= d.delayMs <==> Allowed(config, attempts, ms)
    {
      hide Allowed, ToU64, Product;
      if attempts > config.maxRestarts {
        return GiveUp(attempts, config.maxRestarts);
      }
      var exponent: nat := if attempts > 0 then attempts - 1 else 0;
      var delay := Product(config, AsI32(exponent));
      var delayMs: nat := Min(ToU64(delay), config.maxDelayMs);
      DelayIsLargest(config, attempts);
      return Restart(delayMs);
    }

    method Clear()
      modifies this
      ensures State() == Track(config, old(State()), Reset)
    {
      attempts, lastCrash, lastStart := 0, None, None;
    }
  }

  /** The state after a history of events on a new tracker. */
  function After(c: Config, history: seq<Event>): Tracked {
    if history == [] then Tracked(0, None, None)
    else Track(c, After(c, history[..|history| - 1]), history[|history| - 1])
  }

  // ----- what the state remembers of the history

  /** Event `i` is the last start, with no reset after it. */
  ghost predicate IsLastStart(history: seq<Event>, i: int) {
    0 <= i < |history| && history[i].Start? && forall j | i < j < |history| :: history[j].Crash?
  }

  lemma {:induction false} LastStartIsRemembered(c: Config, history: seq<Event>)
    ensures After(c, history).lastStart.Some? <==> exists i :: IsLastStart(history, i)
    ensures forall i | IsLastStart(history, i) :: After(c, history).lastStart == Some(history[i].now)
  {
    if history == [] {
    } else {
      var n := |history| - 1;
      var before := history[..n];
      LastStartIsRemembered(c, before);
      match history[n]
      case Start(now) => assert IsLastStart(history, n);
      case Reset =>
      case Crash(now) =>
        forall i ensures IsLastStart(history, i) <==> IsLastStart(before, i) {}
    }
  }

  /** Event `k` is a crash after a run that lasted the stable period, counted from the last start. */
  ghost predicate StableCrash(c: Config, history: seq<Event>, k: int) {
    && 0 <= k < |history| && history[k].Crash?
    && exists i :: IsLastStart(history[..k], i) && UptimeMs(history[i].now, history[k].now) >= c.stablePeriodMs
  }

  lemma StableCrashIsSeen(c: Config, history: seq<Event>, k: nat)
    requires k < |history| && history[k].Crash?
    ensures StableCrash(c, history, k) <==> RanStably(c, After(c, history[..k]).lastStart, history[k].now)
  {
    LastStartIsRemembered(c, history[..k]);
    if i :| IsLastStart(history[..k], i) {
      assert After(c, history[..k]).lastStart == Some(history[i].now);
    }
  }

  lemma StableCrashesBefore(c: Config, history: seq<Event>, n: nat)
    requires n <= |history|
    ensures forall j | 0 <= j < n :: StableCrash(c, history, j) <==> StableCrash(c, history[..n], j)
  {
    forall j | 0 <= j < n ensures StableCrash(c, history, j) <==> StableCrash(c, history[..n], j) {
      assert history[..j] == history[..n][..j];
    }
  }

  /** Event `k` begins the current stretch of failures: it is the beginning, comes right after a
      reset, or is a stable crash; and neither of these happens again. */
  ghost predicate StretchBegins(c: Config, history: seq<Event>, k: nat) {
    && k <= |history|
    && (k == 0 || history[k - 1].Reset? || StableCrash(c, history, k))
    && (forall j | k <= j < |history| :: !history[j].Reset?)
    && (forall j | k < j < |history| :: !StableCrash(c, history, j))
  }

  function Crashes(history: seq<Event>): nat {
    if history == [] then 0
    else Crashes(history[..|history| - 1]) + if history[|history| - 1].Crash? then 1 else 0
  }

  /** Before its last event, a stretch that does not begin with that event was the current one. */
  lemma StretchWentOn(c: Config, history: seq<Event>, k: nat)
    requires StretchBegins(c, history, k) && k < |history|
    requires k < |history| - 1 || !StableCrash(c, history, k)
    ensures StretchBegins(c, history[..|history| - 1], k)
    ensures !history[|history| - 1].Reset? && !StableCrash(c, history, |history| - 1)
  {
    StableCrashesBefore(c, history, |history| - 1);
  }

  /** The attempts are the crashes of the current stretch, whichever way it is delimited. */
  lemma {:induction false} AttemptsCountTheStretch(c: Config, history: seq<Event>, k: nat)
    requires StretchBegins(c, history, k)
    ensures After(c, history).attempts == Crashes(history[k..])
    decreases |history|
  {
    if k < |history| {
      var n := |history| - 1;
      assert history[k..][..n - k] == history[..n][k..] && history[k..][n - k] == history[n];
      if history[n].Crash? { StableCrashIsSeen(c, history, n); }
      if k < n || !StableCrash(c, history, k) {
        StretchWentOn(c, history, k);
        hide StretchBegins, StableCrash;
        AttemptsCountTheStretch(c, history[..n], k);
      }
    } else if k > 0 {
      assert history[k..] == [] && (history[k - 1].Reset? || StableCrash(c, history, k));
    }
  }

  lemma StretchGoesOn(c: Config, history: seq<Event>, k: nat)
    requires history != [] && StretchBegins(c, history[..|history| - 1], k)
    requires !history[|history| - 1].Reset? && !StableCrash(c, history, |history| - 1)
    ensures StretchBegins(c, history, k)
  {
    var n := |history| - 1;
    StableCrashesBefore(c, history, n);
    assert !StableCrash(c, history[..n], n);
    hide StableCrash;
  }

  /** Every history has a current stretch. */
  lemma {:induction false} StretchExists(c: Config, history: seq<Event>) returns (k: nat)
    ensures StretchBegins(c, history, k)
  {
    if history == [] {
      k := 0;
    } else if history[|history| - 1].Reset? {
      k := |history|;
    } else if StableCrash(c, history, |history| - 1) {
      k := |history| - 1;
    } else {
      k := StretchExists(c, history[..|history| - 1]);
      StretchGoesOn(c, history, k);
    }
  }

  // ----- whose uptime it is

  /** What the attempts are meant to be: the crashes since the last reset or the last crash of an
      instance that itself ran for the stable period. */
  function Meant(c: Config, history: seq<Event>): nat {
    if history == [] then 0
    else
      var n := |history| - 1;
      match history[n]
      case Start(_) => Meant(c, history[..n])
      case Reset => 0
      case Crash(now) => (if OwnStableRun(c, history, n) then 0 else Meant(c, history[..n])) + 1
  }

  /** The crash `k` is that of the instance started right before it, which ran for the stable period. */
  predicate OwnStableRun(c: Config, history: seq<Event>, k: int) {
    && 0 < k < |history| && history[k].Crash? && history[k - 1].Start?
    && UptimeMs(history[k - 1].now, history[k].now) >= c.stablePeriodMs
  }

  /** No crash lies between a stable crash and the start that its uptime is measured from. */
  ghost predicate NoStaleUptime(c: Config, history: seq<Event>) {
    forall k | StableCrash(c, history, k) :: k > 0 && history[k - 1].Start?
  }

  lemma OwnRunIsStable(c: Config, history: seq<Event>, k: int)
    ensures OwnStableRun(c, history, k) <==> StableCrash(c, history, k) && k > 0 && history[k - 1].Start?
  {
    if 0 < k < |history| && history[k - 1].Start? {
      assert IsLastStart(history[..k], k - 1);
    }
  }

  lemma {:induction false} CountsAsMeant(c: Config, history: seq<Event>)
    requires NoStaleUptime(c, history)
    ensures After(c, history).attempts == Meant(c, history)
  {
    if history == [] {
    } else {
      var n := |history| - 1;
      StableCrashesBefore(c, history, n);
      CountsAsMeant(c, history[..n]);
      OwnRunIsStable(c, history, n);
      if history[n].Crash? { StableCrashIsSeen(c, history, n); }
    }
  }

  lemma MeantAfterCrash(c: Config, history: seq<Event>)
    requires history != [] && history[|history| - 1].Crash?
    ensures Meant(c, history) >= 1
  {
  }

  /** A crash does not clear the remembered start. So the tracker counts as it is meant to, in every
      state of a history, exactly if no crash lies between a stable crash and the start its uptime is
      measured from: a relaunch that fails before it is recorded as started must not happen that late. */
  lemma CountsAsMeantExactly(c: Config, history: seq<Event>)
    ensures (forall n | 0 <= n <= |history| :: After(c, history[..n]).attempts == Meant(c, history[..n]))
      <==> NoStaleUptime(c, history)
  {
    if NoStaleUptime(c, history) {
      forall n | 0 <= n <= |history| ensures After(c, history[..n]).attempts == Meant(c, history[..n]) {
        StableCrashesBefore(c, history, n);
        CountsAsMeant(c, history[..n]);
      }
    } else {
      var k :| StableCrash(c, history, k) && !(k > 0 && history[k - 1].Start?);
      StaleUptimeMiscounts(c, history, k);
      assert After(c, history[..k + 1]).attempts != Meant(c, history[..k + 1]);
    }
  }

  lemma StaleUptimeMiscounts(c: Config, history: seq<Event>, k: nat)
    requires StableCrash(c, history, k) && !(k > 0 && history[k - 1].Start?)
    ensures After(c, history[..k + 1]).attempts == 1 < Meant(c, history[..k + 1])
  {
    var upTo := history[..k + 1];
    assert upTo[..k] == history[..k];
    StableCrashIsSeen(c, history, k);
    var i :| IsLastStart(history[..k], i);
    assert history[..k][k - 1].Crash?;
    MeantAfterCrash(c, history[..k]);
  }

  /** One start, and then crash after crash. */
  function CrashLoop(start: int, crashes: seq<int>): (history: seq<Event>)
    ensures |history| == |crashes| + 1 && history[0] == Start(start)
    ensures forall i | 0 <= i < |crashes| :: history[i + 1] == Crash(crashes[i])
  {
    [Start(start)] + seq(|crashes|, i requires 0 <= i < |crashes| => Crash(crashes[i]))
  }

  /** What that allows: if every relaunch fails without being recorded as started, later than the
      stable period after the one recorded start, the tracker never gives up. */
  lemma {:induction false} CrashLoopNeverGivesUp(c: Config, start: int, crashes: seq<int>)
    requires crashes != [] && forall t | t in crashes :: UptimeMs(start, t) >= c.stablePeriodMs
    ensures After(c, CrashLoop(start, crashes)).attempts == 1
    ensures After(c, CrashLoop(start, crashes)).lastStart == Some(start)
    ensures c.maxRestarts >= 1 ==> Decide(c, After(c, CrashLoop(start, crashes)).attempts).Restart?
  {
    FirstIsTried(c);
    hide Decide;
    var n := |crashes| - 1;
    var history := CrashLoop(start, crashes);
    assert crashes[n] in crashes && history[n + 1] == Crash(crashes[n]);
    assert history[..n + 1] == CrashLoop(start, crashes[..n]);
    if n == 0 {
      assert history[..1] == [Start(start)] && history[..1][..0] == [];
    } else {
      assert forall t | t in crashes[..n] :: t in crashes;
      CrashLoopNeverGivesUp(c, start, crashes[..n]);
      hide CrashLoop;
    }
  }

  lemma FirstIsTried(c: Config)
    ensures c.maxRestarts >= 1 ==> Decide(c, 1).Restart?
  {
  }

  // ----- the budget

  lemma {:induction false} PowerGrows(x: real, m: nat, n: nat)
    requires x >= 1.0 && m <= n
    ensures 1.0 <= Power(x, m) <= Power(x, n)
    decreases n
  {
    if n == 0 {
    } else {
      if m < n {
        PowerGrows(x, m, n - 1);
        GrowByFactor(x, Power(x, n - 1));
      } else {
        PowerGrows(x, m - 1, n - 1);
        GrowByFactor(x, Power(x, n - 1));
      }
    }
  }

  lemma GrowByFactor(x: real, y: real)
    requires x >= 1.0 && y >= 0.0
    ensures x * y >= y
  {
  }

  lemma DelaysGrow(c: Config, a: nat, b: nat)
    requires c.backoffFactor >= 1.0 && 1 <= a <= b <= I32_RANGE
    ensures Delay(c, a) <= Delay(c, b) <= c.maxDelayMs
  {
    hide Wait;
    WaitsGrow(c, a, b);
  }

  lemma WaitsGrow(c: Config, a: nat, b: nat)
    requires c.backoffFactor >= 1.0 && 1 <= a <= b <= I32_RANGE
    ensures Wait(c, a) <= Wait(c, b)
  {
    hide Wait, Power;
    PowerGrows(c.backoffFactor, a - 1, b - 1);
    ScaledGrows(c.initialDelayMs as real, Power(c.backoffFactor, a - 1), Power(c.backoffFactor, b - 1));
    WaitWithinRange(c, a);
    WaitWithinRange(c, b);
  }

  lemma WaitWithinRange(c: Config, attempts: nat)
    requires 1 <= attempts <= I32_RANGE
    ensures Wait(c, attempts) == c.initialDelayMs as real * Power(c.backoffFactor, attempts - 1)
  {
  }

  /** The backoff is geometric: it starts with the initial delay, and each attempt multiplies it by the
      factor. */
  lemma WaitsMultiply(c: Config, attempts: nat)
    requires 1 <= attempts < I32_RANGE
    ensures Wait(c, 1) == c.initialDelayMs as real
    ensures Wait(c, attempts + 1) == Wait(c, attempts) * c.backoffFactor
  {
    hide Wait;
    WaitWithinRange(c, 1);
    WaitWithinRange(c, attempts);
    WaitWithinRange(c, attempts + 1);
    var d, p := c.initialDelayMs as real, Power(c.backoffFactor, attempts - 1);
    assert Power(c.backoffFactor, attempts) == c.backoffFactor * p;
    Reordered(d, c.backoffFactor, p);
  }

  lemma Reordered(d: real, x: real, p: real)
    ensures d * (x * p) == d * p * x
  {
  }

  lemma WaitBeyondRange(c: Config, n: nat)
    requires n == I32_RANGE && Power(c.backoffFactor, n) != 0.0
    ensures Wait(c, n + 1) == c.initialDelayMs as real * (1.0 / Power(c.backoffFactor, n))
  {
    assert AsI32(n) == -(n as int);
  }

  lemma ScaledGrows(d: real, p: real, q: real)
    requires d >= 0.0 && p <= q
    ensures d * p <= d * q
  {
  }

  /** What the tracker answers when asked right after event `i`. */
  function AnswerAfter(c: Config, history: seq<Event>, i: nat): Decision
    requires i < |history|
  {
    Decide(c, After(c, history[..i + 1]).attempts)
  }

  /** A stretch that has begun by event `j` is the current one after it, too. */
  lemma StretchBegunBefore(c: Config, history: seq<Event>, k: nat, j: nat)
    requires StretchBegins(c, history, k) && k <= j < |history|
    ensures StretchBegins(c, history[..j + 1], k)
  {
    StableCrashesBefore(c, history, j + 1);
  }

  lemma {:induction false} CrashesGrow(history: seq<Event>, k: nat, i: nat, j: nat)
    requires k <= i <= j < |history| && history[i].Crash?
    ensures 1 <= Crashes(history[k..i + 1]) <= Crashes(history[k..j + 1])
    decreases j
  {
    var upTo := history[k..j + 1];
    assert upTo[..|upTo| - 1] == history[k..j] && upTo[|upTo| - 1] == history[j];
    if i < j { CrashesGrow(history, k, i, j - 1); }
  }

  /** The budget over every history. Asked right after the crashes of a stretch, the tracker answers
      restart exactly for the first `maxRestarts` of them; no delay exceeds the maximum, and with a
      factor of at least one, unless the budget exceeds the range of the exponent, no restart waits
      less than one for an earlier crash of the stretch. */
  lemma RestartBudget(c: Config, history: seq<Event>, k: nat, i: nat, j: nat)
    requires StretchBegins(c, history, k) && k <= i <= j < |history|
    requires history[i].Crash? && history[j].Crash?
    ensures AnswerAfter(c, history, j).Restart? <==> Crashes(history[k..j + 1]) <= c.maxRestarts
    ensures AnswerAfter(c, history, j).Restart? ==>
      && AnswerAfter(c, history, i).Restart?
      && AnswerAfter(c, history, j).delayMs <= c.maxDelayMs
      && (c.backoffFactor >= 1.0 && c.maxRestarts <= I32_RANGE ==>
            AnswerAfter(c, history, i).delayMs <= AnswerAfter(c, history, j).delayMs)
  {
    StretchBegunBefore(c, history, k, i);
    StretchBegunBefore(c, history, k, j);
    AttemptsCountTheStretch(c, history[..i + 1], k);
    AttemptsCountTheStretch(c, history[..j + 1], k);
    assert history[..i + 1][k..] == history[k..i + 1] && history[..j + 1][k..] == history[k..j + 1];
    CrashesGrow(history, k, i, j);
    if c.backoffFactor >= 1.0 && Crashes(history[k..j + 1]) <= c.maxRestarts <= I32_RANGE {
      DelaysGrow(c, Crashes(history[k..i + 1]), Crashes(history[k..j + 1]));
    }
  }

  /** With a factor of two or more, as by default, the delays never decrease exactly if the budget
      does not exceed the range of the exponent; the first restart beyond it does not wait at all. */
  lemma DelaysGrowExactly(c: Config)
    requires c.backoffFactor >= 2.0 && c.initialDelayMs >= 1 && c.maxDelayMs >= 1
    ensures (forall a: nat, b: nat | 1 <= a <= b <= c.maxRestarts :: Delay(c, a) <= Delay(c, b))
      <==> c.maxRestarts <= I32_RANGE
  {
    if c.maxRestarts <= I32_RANGE {
      forall a: nat, b: nat | 1 <= a <= b <= c.maxRestarts ensures Delay(c, a) <= Delay(c, b) {
        DelaysGrow(c, a, b);
      }
    } else {
      var n: nat := I32_RANGE;
      DelayDrops(c, n);
      assert Delay(c, n) > Delay(c, n + 1);
    }
  }

  lemma DelayDrops(c: Config, n: nat)
    requires c.backoffFactor >= 2.0 && c.initialDelayMs >= 1 && c.maxDelayMs >= 1 && n == I32_RANGE
    ensures Delay(c, n) >= 1 && Delay(c, n + 1) == 0
  {
    hide Wait;
    WaitAtRange(c, n);
    WaitPastRange(c, n);
  }

  lemma WaitAtRange(c: Config, n: nat)
    requires c.backoffFactor >= 1.0 && c.initialDelayMs >= 1 && n == I32_RANGE
    ensures Wait(c, n) >= 1.0
  {
    hide Wait;
    WaitsGrow(c, 1, n);
    WaitWithinRange(c, 1);
    assert Power(c.backoffFactor, 0) == 1.0;
  }

  lemma WaitPastRange(c: Config, n: nat)
    requires c.backoffFactor >= 2.0 && n == I32_RANGE
    ensures 0.0 <= Wait(c, n + 1) < 1.0
  {
    hide Wait, Power;
    PowerAt64(c.backoffFactor);
    PowerGrows(c.backoffFactor, 64, n);
    ProperPart(c.initialDelayMs as real, Power(c.backoffFactor, n));
    WaitBeyondRange(c, n);
  }

  lemma ProperPart(d: real, p: real)
    requires 0.0 <= d < p
    ensures 0.0 <= d * (1.0 / p) < 1.0
  {
    assert d * (1.0 / p) == d / p;
  }

  lemma PowerStep(x: real, n: nat)
    ensures Power(x, 0) == 1.0 && Power(x, n + 1) == x * Power(x, n)
  {
  }

  lemma {:induction false} PowerAdds(x: real, n: nat, m: nat)
    ensures Power(x, n + m) == Power(x, n) * Power(x, m)
  {
    hide Power;
    if n == 0 {
      PowerStep(x, 0);
    } else {
      PowerAdds(x, n - 1, m);
      PowerStep(x, n - 1);
      PowerStep(x, n - 1 + m);
      Associates(x, Power(x, n - 1), Power(x, m), Power(x, n - 1 + m), Power(x, n), Power(x, n + m));
    }
  }

  lemma Associates(x: real, y: real, z: real, yz: real, xy: real, xyz: real)
    requires yz == y * z && xy == x * y && xyz == x * yz
    ensures xyz == xy * z
  {
    assert x * (y * z) == (x * y) * z;
  }

  lemma SquareAtLeast(x: real, n: nat, bound: nat)
    requires Power(x, n) >= bound as real
    ensures Power(x, n + n) >= bound as real * bound as real
  {
    PowerAdds(x, n, n);
    hide Power;
    Squares(Power(x, n), bound as real);
  }

  lemma Squares(p: real, b: real)
    requires 0.0 <= b <= p
    ensures p * p >= b * b
  {
    assert p * p - b * b == (p - b) * (p + b);
    Factors(p - b, p + b);
  }

  lemma Factors(x: real, y: real)
    requires x >= 0.0 && y >= 0.0
    ensures x * y >= 0.0
  {
  }

  lemma PowerAt64(x: real)
    requires x >= 2.0
    ensures Power(x, 64) > U64_MAX as real
  {
    assert Power(x, 1) == x * 1.0;
    hide Power;
    SquareAtLeast(x, 1, 2);
    SquareAtLeast(x, 2, 4);
    SquareAtLeast(x, 4, 16);
    SquareAtLeast(x, 8, 256);
    SquareAtLeast(x, 16, 0x1_0000);
    SquareAtLeast(x, 32, 0x1_0000_0000);
  }

  /** The first restart of a stretch waits for the initial delay, or the maximum if that is less. */
  lemma FirstDelay(c: Config)
    ensures Delay(c, 1) == Min(c.initialDelayMs, c.maxDelayMs)
  {
  }
}
