/** Admission control for API requests: every critical section of the governor is a method, and
    any sequence of them, under any clock, keeps the documented bounds. */
module Governor {
  import opened Numbers
  import opened Options

  const SECOND := 1_000_000_000
  const WINDOW := 60 * SECOND
  const TICK := 50_000_000

  datatype Class = Read | Content | Upload

  predicate DrawsContent(k: Class) {
    k != Read
  }

  datatype Config = Config(reserve: nat, maxWait: int, pointsPerMin: int, contentPerMin: int, concurrency: int)

  predicate GoodConfig(cfg: Config) {
    cfg.pointsPerMin > 0 && cfg.contentPerMin > 0 && cfg.concurrency > 0
  }

  /** The point share kept for reads. */
  function ReadPointReserve(cfg: Config): (r: int)
    requires GoodConfig(cfg)
    ensures 0 <= r < cfg.pointsPerMin && (2 <= cfg.pointsPerMin < 10 ==> r == 1)
    ensures cfg.pointsPerMin >= 10 ==> 10 * r <= cfg.pointsPerMin < 10 * r + 10
  {
    var r := if cfg.pointsPerMin / 10 < 1 then 1 else cfg.pointsPerMin / 10;
    if r >= cfg.pointsPerMin then cfg.pointsPerMin - 1 else r
  }

  /** The slots kept for reads. */
  function ReadSlotReserve(cfg: Config): (r: int)
    requires GoodConfig(cfg)
    ensures 0 <= r < cfg.concurrency && (2 <= cfg.concurrency < 4 ==> r == 1)
    ensures cfg.concurrency >= 4 ==> 4 * r <= cfg.concurrency < 4 * r + 4
  {
    var r := if cfg.concurrency / 4 < 1 then 1 else cfg.concurrency / 4;
    if r >= cfg.concurrency then cfg.concurrency - 1 else r
  }

  function EffectivePoints(cfg: Config, k: Class): int
    requires GoodConfig(cfg)
  {
    if k == Read then cfg.pointsPerMin else cfg.pointsPerMin - ReadPointReserve(cfg)
  }

  /** The reserve is meant to leave room for one content request in the smallest window; at five
      points a request it does from six points up. */
  lemma TinyWindowAdmitsIff(cfg: Config)
    requires GoodConfig(cfg)
    ensures 5 <= EffectivePoints(cfg, Content) <==> cfg.pointsPerMin >= 6
  {
  }

  function MinReal(a: real, b: real): real {
    if a < b then a else b
  }

  datatype Budget = Budget(limit: int, remaining: int, resetAt: Option<int>, seen: bool)

  predicate BeforeReset(b: Budget, now: int) {
    b.resetAt.Some? && now < b.resetAt.value
  }

  /** The sustainable rate per second: what may still be spent over the time it must last. */
  function Refill(b: Budget, reserve: int, now: int): (rate: real)
    ensures rate >= 0.0
  {
    if b.seen && BeforeReset(b, now) && b.remaining > reserve then
      (b.remaining - reserve) as real / ((b.resetAt.value - now) as real / SECOND as real)
    else 0.0
  }

  // ----- when a request fits

  predicate FitsHourly(cfg: Config, b: Budget, now: int, cost: int, k: Class) {
    k == Upload || !b.seen || !BeforeReset(b, now) || b.remaining > cfg.reserve + cost
  }

  predicate FitsWindow(cfg: Config, points: int, content: int, cost: int, k: Class)
    requires GoodConfig(cfg)
  {
    points + cost <= EffectivePoints(cfg, k) && (DrawsContent(k) ==> content < cfg.contentPerMin)
  }

  /** The bucket after its refill, never more than half a minute's worth and ten. */
  function Balance(b: Budget, reserve: int, tokens: real, lastRefill: Option<int>, now: int, cost: int): real {
    var refill := Refill(b, reserve, now);
    MinReal(
      if lastRefill == None then cost as real + 10.0 else tokens + refill * ((now - lastRefill.value) as real / SECOND as real),
      refill * 30.0 + 10.0)
  }

  /** What was left and what has refilled since, or the burst pool if that is less; a bucket never used
      is ten above the cost. */
  lemma BalanceIs(b: Budget, reserve: int, tokens: real, lastRefill: Option<int>, now: int, cost: int)
    ensures var refill := Refill(b, reserve, now);
      var pool := refill * 30.0 + 10.0;
      var filled := if lastRefill.None? then cost as real + 10.0
        else tokens + refill * ((now - lastRefill.value) as real / 1_000_000_000.0);
      var balance := Balance(b, reserve, tokens, lastRefill, now, cost);
      balance <= pool && balance <= filled && (balance == pool || balance == filled)
  {
  }

  /** A short bucket holds a request up only while there is a reset to pace towards, and by a
      nanosecond at least. */
  predicate FitsPace(b: Budget, reserve: int, balance: real, now: int, cost: int, k: Class) {
    var refill := Refill(b, reserve, now);
    || k == Upload || balance >= cost as real || !BeforeReset(b, now)
    || (refill > 0.0 && PaceNanos(cost as real - balance, refill) == 0)
  }

  // ----- how long a request that does not fit has to wait

  /** To a second past the reset. */
  function HourlyNeed(cfg: Config, b: Budget, now: int, cost: int, k: Class): int {
    if FitsHourly(cfg, b, now, cost, k) || !BeforeReset(b, now) then 0 else b.resetAt.value - now + 20 * TICK
  }

  /** Until the bucket has refilled, or, where it never does, to the reset. */
  function PaceNeed(b: Budget, reserve: int, balance: real, now: int, cost: int, k: Class): int {
    var refill := Refill(b, reserve, now);
    if k == Upload || balance >= cost as real then 0
    else if refill > 0.0 then PaceNanos(cost as real - balance, refill)
    else if BeforeReset(b, now) then b.resetAt.value - now
    else 0
  }

  /** To the end of the window. */
  function WindowNeed(cfg: Config, winStart: int, points: int, content: int, now: int, cost: int, k: Class): int
    requires GoodConfig(cfg)
  {
    if FitsWindow(cfg, points, content, cost, k) then 0 else winStart + WINDOW - now
  }

  /** The refill lasts exactly as long as the hour does. */
  lemma RefillIs(b: Budget, reserve: int, now: int)
    ensures b.seen && b.resetAt.Some? && now < b.resetAt.value && b.remaining > reserve ==>
      Refill(b, reserve, now) > 0.0
      && Refill(b, reserve, now) * ((b.resetAt.value - now) as real / 1_000_000_000.0) == (b.remaining - reserve) as real
    ensures !b.seen || b.resetAt.None? || now >= b.resetAt.value || b.remaining <= reserve ==> Refill(b, reserve, now) == 0.0
  {
    if b.seen && b.resetAt.Some? && now < b.resetAt.value && b.remaining > reserve {
      Quotient((b.remaining - reserve) as real, (b.resetAt.value - now) as real / 1_000_000_000.0);
    }
  }

  lemma Quotient(x: real, y: real)
    requires x > 0.0 && y > 0.0
    ensures x / y > 0.0 && x / y * y == x
  {
  }

  /** The wait for the pace brings the bucket to the cost, but for what refills in a nanosecond. */
  lemma PaceNanosIs(deficit: real, refill: real)
    requires deficit > 0.0 && refill > 0.0
    ensures var n := PaceNanos(deficit, refill) as real;
      refill * n <= deficit * 1_000_000_000.0 < refill * (n + 1.0)
  {
    var t, n := deficit / refill * 1_000_000_000.0, PaceNanos(deficit, refill) as real;
    Quotient(deficit, refill);
    assert refill * t == deficit * 1_000_000_000.0;
    ScaledBetween(refill, n, t, n + 1.0, deficit * 1_000_000_000.0);
  }

  lemma ScaledBetween(f: real, a: real, t: real, b: real, product: real)
    requires f > 0.0 && a <= t < b && f * t == product
    ensures f * a <= product < f * b
  {
    Scaled(f, a, t);
    Scaled(f, t, b);
  }

  lemma Scaled(f: real, a: real, b: real)
    requires f > 0.0
    ensures a <= b ==> f * a <= f * b
    ensures a < b ==> f * a < f * b
  {
    if a < b {
      assert f * (b - a) > 0.0;
    }
  }

  datatype Verdict = Denied | Wait(nanos: int)

  class Governor {
    const cfg: Config
    var budget: Budget
    var tokens: real
    var lastRefill: Option<int>
    var winStart: Option<int>
    var winPoints: int
    var winContent: int
    var contentInflight: int
    var inflight: int

    // Of the current window: what was admitted and not taken back, and what requests of earlier
    // windows took back.
    ghost var spent: int
    ghost var crossed: int
    ghost var contentHolding: int
    ghost var readHolding: int

    constructor (cfg: Config)
      requires GoodConfig(cfg)
      ensures Valid() && this.cfg == cfg && winPoints == 0 && winContent == 0 && contentInflight == 0 && winStart == None
    {
      this.cfg := cfg;
      budget, tokens, lastRefill, winStart := Budget(0, 0, None, false), 0.0, None, None;
      winPoints, winContent, contentInflight, inflight := 0, 0, 0, 0;
      spent, crossed, contentHolding, readHolding := 0, 0, 0, 0;
    }

    ghost predicate Valid()
      reads this
    {
      && GoodConfig(cfg)
      && 0 <= winPoints <= cfg.pointsPerMin && 0 <= winContent <= cfg.contentPerMin
      && 0 <= crossed && spent - crossed <= winPoints <= spent
      && 0 <= contentHolding <= contentInflight <= cfg.concurrency - ReadSlotReserve(cfg)
      && 0 <= readHolding && inflight == contentHolding + readHolding <= cfg.concurrency
      && (budget.seen ==> budget.resetAt.Some?)
    }

    predicate TooLong(d: int) {
      d > 0 && d > cfg.maxWait
    }

    // ----- the three waits

    method HourlyWait(now: int, cost: int, k: Class) returns (v: Verdict)
      requires Valid() && 1 <= cost
      ensures v.Wait? ==> v.nanos >= 0
      ensures v == Wait(0) <==> FitsHourly(cfg, budget, now, cost, k)
      // A wait is to one second past the reset; it is refused when the reset is too far off.
      ensures var fits := k == Upload || !budget.seen || now >= budget.resetAt.value || budget.remaining > cfg.reserve + cost;
        v == if fits then Wait(0) else if budget.resetAt.value - now > cfg.maxWait then Denied
          else Wait(budget.resetAt.value - now + 1_000_000_000)
    {
      if k == Upload || !budget.seen || !BeforeReset(budget, now) || budget.remaining > cfg.reserve + cost {
        return Wait(0);
      }
      var untilReset := budget.resetAt.value - now;
      if TooLong(untilReset) {
        return Denied;
      }
      return Wait(untilReset + 20 * TICK);
    }

    /** The bucket is filled on first use, whatever becomes of the request. */
    method PacingWait(now: int, cost: int, k: Class) returns (v: Verdict, balance: real)
      requires Valid() && 1 <= cost
      modifies this`tokens, this`lastRefill
      ensures Valid()
      ensures v.Wait? ==> v.nanos >= 0
      ensures k == Upload ==> v == Wait(0)
      ensures k != Upload ==> balance == Balance(budget, cfg.reserve, old(tokens), old(lastRefill), now, cost)
      ensures v == Wait(0) <==> FitsPace(budget, cfg.reserve, balance, now, cost, k)
      ensures var need := PaceNeed(budget, cfg.reserve, balance, now, cost, k);
        v == if need > 0 && need > cfg.maxWait then Denied else Wait(need)
    {
      if k == Upload {
        return Wait(0), 0.0;
      }
      var refill := Refill(budget, cfg.reserve, now);
      if lastRefill == None {
        lastRefill, tokens := Some(now), cost as real + 10.0;
      }
      var elapsed := (now - lastRefill.value) as real / SECOND as real;
      balance := MinReal(tokens + refill * elapsed, refill * 30.0 + 10.0);
      var paceWait := 0;
      if balance < cost as real {
        if refill > 0.0 {
          paceWait := PaceNanos(cost as real - balance, refill);
        } else if BeforeReset(budget, now) {
          paceWait := budget.resetAt.value - now;
        }
        if TooLong(paceWait) {
          return Denied, balance;
        }
      }
      v := Wait(paceWait);
    }

    /** Rolls the windows over when due, whatever becomes of the request. */
    method WindowWait(now: int, cost: int, k: Class) returns (v: Verdict)
      requires Valid() && 1 <= cost
      modifies this`winStart, this`winPoints, this`winContent, this`spent, this`crossed
      ensures Valid()
      ensures if old(winStart).None? || now - old(winStart).value >= WINDOW
        then winStart == Some(now) && winPoints == 0 && winContent == 0 && spent == 0 && crossed == 0
        else winStart == old(winStart) && winPoints == old(winPoints) && winContent == old(winContent) && spent == old(spent) && crossed == old(crossed)
      ensures v.Wait? ==> v.nanos >= 0
      ensures v == Wait(0) <==> FitsWindow(cfg, winPoints, winContent, cost, k)
      ensures var fits, left := FitsWindow(cfg, winPoints, winContent, cost, k), winStart.value + 60_000_000_000 - now;
        v == if fits then Wait(0) else if left > cfg.maxWait then Denied else Wait(left)
    {
      if winStart.None? || now - winStart.value >= WINDOW {
        winStart, winPoints, winContent := Some(now), 0, 0;
        spent, crossed := 0, 0;
      }
      var wait := 0;
      if winPoints + cost > EffectivePoints(cfg, k) {
        var pointWait := WINDOW - (now - winStart.value);
        if TooLong(pointWait) {
          return Denied;
        }
        wait := Max(wait, pointWait);
      }
      if DrawsContent(k) && winContent >= cfg.contentPerMin {
        var contentWait := WINDOW - (now - winStart.value);
        if TooLong(contentWait) {
          return Denied;
        }
        wait := Max(wait, contentWait);
      }
      v := Wait(wait);
    }

    // ----- reserve

    predicate Rolls(now: int)
      reads this
    {
      winStart.None? || now - winStart.value >= WINDOW
    }

    /** The three waits of a request, one after the other: any of them may be refused; otherwise the
        longest is the answer. */
    method LongestWait(now: int, cost: int, k: Class) returns (v: Verdict, balance: real)
      requires Valid() && 1 <= cost
      modifies this`tokens, this`lastRefill, this`winStart, this`winPoints, this`winContent, this`spent, this`crossed
      ensures Valid()
      ensures v != Denied && k != Upload ==> balance == Balance(budget, cfg.reserve, old(tokens), old(lastRefill), now, cost)
      ensures v == Verdicts(
        HourlyNeed(cfg, budget, now, cost, k),
        PaceNeed(budget, cfg.reserve, Balance(budget, cfg.reserve, old(tokens), old(lastRefill), now, cost), now, cost, k),
        if old(Rolls(now)) then WindowNeed(cfg, now, 0, 0, now, cost, k)
        else WindowNeed(cfg, old(winStart).value, old(winPoints), old(winContent), now, cost, k))
      ensures winStart == old(winStart)
        || (old(Rolls(now)) && winStart == Some(now) && winPoints == 0 && winContent == 0 && spent == 0 && crossed == 0)
      ensures old(Rolls(now)) && v != Denied ==>
        winStart == Some(now) && winPoints == 0 && winContent == 0 && spent == 0 && crossed == 0
      ensures winStart == old(winStart) && (v == Denied || !old(Rolls(now))) ==>
        winPoints == old(winPoints) && winContent == old(winContent) && spent == old(spent) && crossed == old(crossed)
    {
      balance := 0.0;
      v := HourlyWait(now, cost, k);
      if v == Denied {
        return;
      }
      var wait := v.nanos;
      v, balance := PacingWait(now, cost, k);
      if v == Denied {
        return;
      }
      wait := Max(wait, v.nanos);
      v := WindowWait(now, cost, k);
      if v == Denied {
        return;
      }
      v := Wait(Max(wait, v.nanos));
    }

    /** The answer to three needs: the hour's is measured to the reset itself. */
    function Verdicts(hourly: int, pace: int, window: int): (v: Verdict)
      ensures v.Wait? ==> hourly <= v.nanos && pace <= v.nanos && window <= v.nanos && v.nanos in {hourly, pace, window}
    {
      if hourly > 0 && hourly - SECOND > cfg.maxWait then Denied
      else if pace > 0 && pace > cfg.maxWait then Denied
      else if window > 0 && window > cfg.maxWait then Denied
      else Wait(Max(hourly, Max(pace, window)))
    }

    /** A request is admitted exactly when it fits the hour, the pace and the windows; an admission
        is accounted for at once, and nothing else is. */
    method Reserve(now: int, cost: int, k: Class) returns (v: Verdict)
      requires Valid() && 1 <= cost
      modifies this
      ensures Valid() && budget.(remaining := 0) == old(budget.(remaining := 0)) && inflight == old(inflight)
      ensures contentInflight == old(contentInflight) && contentHolding == old(contentHolding) && readHolding == old(readHolding)
      ensures v.Wait? ==> v.nanos >= 0
      ensures v == Wait(0) <==>
        && FitsHourly(cfg, old(budget), now, cost, k)
        && FitsPace(old(budget), cfg.reserve, Balance(old(budget), cfg.reserve, old(tokens), old(lastRefill), now, cost), now, cost, k)
        && FitsWindow(cfg, if old(Rolls(now)) then 0 else old(winPoints), if old(Rolls(now)) then 0 else old(winContent), cost, k)
      ensures v == Wait(0) ==>
        && winPoints == cost + (if old(Rolls(now)) then 0 else old(winPoints))
        && winContent == (if DrawsContent(k) then 1 else 0) + (if old(Rolls(now)) then 0 else old(winContent))
        && spent == cost + (if old(Rolls(now)) then 0 else old(spent))
      ensures v == Wait(0) || old(Rolls(now)) || (winPoints == old(winPoints) && winContent == old(winContent) && spent == old(spent))
      ensures v == Wait(0) && !old(Rolls(now)) ==> crossed == old(crossed)
      ensures if old(Rolls(now)) && winStart != old(winStart) then winStart == Some(now) else winStart == old(winStart)
      ensures v == Wait(0) || winStart != old(winStart) || (spent == old(spent) && crossed == old(crossed))
      ensures winStart != old(winStart) && v != Wait(0) ==> spent == 0
      ensures v == Wait(0) && old(Rolls(now)) ==> winStart == Some(now)
      // Before the reset no admission takes what is left down to the reserve.
      ensures v == Wait(0) && k != Upload && old(budget).seen && BeforeReset(old(budget), now) ==> budget.remaining > cfg.reserve
      ensures v != Wait(0) || k == Upload ==> budget == old(budget)
      // Any of the three waits may be refused; otherwise the longest of them is the answer.
      ensures v == Verdicts(
        HourlyNeed(cfg, old(budget), now, cost, k),
        PaceNeed(old(budget), cfg.reserve, Balance(old(budget), cfg.reserve, old(tokens), old(lastRefill), now, cost), now, cost, k),
        if old(Rolls(now)) then WindowNeed(cfg, now, 0, 0, now, cost, k)
        else WindowNeed(cfg, old(winStart).value, old(winPoints), old(winContent), now, cost, k))
      // A wait for the windows alone ends with the window.
      ensures k == Upload && v.Wait? && v.nanos > 0 ==> winStart.Some? && now + v.nanos == winStart.value + WINDOW
    {
      var balance;
      v, balance := LongestWait(now, cost, k);
      if v == Wait(0) {
        CommitReservation(now, cost, k, balance);
      }
    }

    method CommitReservation(now: int, cost: int, k: Class, balance: real)
      requires Valid() && 1 <= cost && winPoints + cost <= cfg.pointsPerMin
      requires DrawsContent(k) ==> winContent < cfg.contentPerMin
      modifies this`lastRefill, this`tokens, this`budget, this`winPoints, this`winContent, this`spent
      ensures Valid() && winPoints == old(winPoints) + cost && spent == old(spent) + cost
      ensures winContent == old(winContent) + if DrawsContent(k) then 1 else 0
      ensures budget.(remaining := 0) == old(budget.(remaining := 0))
      ensures budget.remaining == old(budget.remaining) - if k != Upload && budget.seen && old(budget.remaining) > 0 then 1 else 0
    {
      if k != Upload {
        lastRefill, tokens := Some(now), balance - cost as real;
        if budget.seen && budget.remaining > 0 {
          budget := budget.(remaining := budget.remaining - 1);
        }
      }
      winPoints, spent := winPoints + cost, spent + cost;
      if DrawsContent(k) {
        winContent := winContent + 1;
      }
    }

    // ----- rollback

    /** Takes an admission back. `sameWindow` tells whether it was made in the current window; the
        code cannot know, so an older one is taken out of the current count all the same. */
    method Rollback(cost: int, k: Class, ghost sameWindow: bool)
      requires Valid() && 1 <= cost && (sameWindow ==> cost <= spent)
      modifies this`winPoints, this`winContent, this`tokens, this`budget, this`spent, this`crossed
      ensures Valid()
      ensures winPoints == Max(old(winPoints) - cost, 0)
      ensures winContent == if DrawsContent(k) then Max(old(winContent) - 1, 0) else old(winContent)
      ensures tokens == if k == Upload then old(tokens) else old(tokens) + cost as real
      ensures if sameWindow then spent == old(spent) - cost && crossed == old(crossed)
        else spent == old(spent) && crossed == old(crossed) + cost
      ensures budget.resetAt == old(budget.resetAt) && budget.seen == old(budget.seen) && budget.limit == old(budget.limit)
      ensures budget.remaining == old(budget.remaining)
        + if k != Upload && budget.seen && old(budget.remaining) < budget.limit then 1 else 0
    {
      winPoints := if winPoints >= cost then winPoints - cost else 0;
      if DrawsContent(k) && winContent > 0 {
        winContent := winContent - 1;
      }
      if k != Upload {
        tokens := tokens + cost as real;
        if budget.seen && budget.remaining < budget.limit {
          budget := budget.(remaining := budget.remaining + 1);
        }
      }
      if sameWindow {
        spent := spent - cost;
      } else {
        crossed := crossed + cost;
      }
    }

    // ----- observe

    /** Late headers never move the reset back, and never raise what is left of the same window. */
    method Observe(limit: int, remaining: int, resetAt: int, now: int)
      requires Valid()
      modifies this`budget, this`lastRefill
      ensures Valid() && budget.seen
      ensures old(budget).seen ==> budget.resetAt.value >= old(budget).resetAt.value
      ensures old(budget).seen && budget.resetAt == old(budget).resetAt ==> budget.remaining <= old(budget).remaining
      ensures old(budget).seen && resetAt == old(budget).resetAt.value ==> budget.remaining == Min(remaining, old(budget).remaining)
      ensures old(budget).seen ==> budget.resetAt.value == Max(old(budget).resetAt.value, resetAt)
      ensures !old(budget).seen || resetAt > old(budget).resetAt.value ==> budget == Budget(limit, remaining, Some(resetAt), true)
      ensures budget == old(budget) || budget == Budget(limit, remaining, Some(resetAt), true)
    {
      if budget.seen {
        if resetAt < budget.resetAt.value || (resetAt == budget.resetAt.value && remaining > budget.remaining) {
          return;
        }
      }
      budget := Budget(limit, remaining, Some(resetAt), true);
      lastRefill := Some(now);
    }

    // ----- slots

    /** One look at the content cap. */
    method TryContentSlot() returns (ok: bool)
      requires Valid()
      modifies this`contentInflight
      ensures Valid() && ok == (old(contentInflight) < cfg.concurrency - ReadSlotReserve(cfg))
      ensures contentInflight == old(contentInflight) + if ok then 1 else 0
    {
      ok := contentInflight < cfg.concurrency - ReadSlotReserve(cfg);
      if ok {
        contentInflight := contentInflight + 1;
      }
    }

    /** The channel of `concurrency` slots; content comes here with a content slot in hand. */
    method TakeSlot(k: Class) returns (ok: bool)
      requires Valid() && (k != Read ==> contentHolding < contentInflight)
      modifies this`inflight, this`contentHolding, this`readHolding
      ensures Valid() && ok == (old(inflight) < cfg.concurrency)
      ensures contentHolding == old(contentHolding) + if ok && k != Read then 1 else 0
      ensures readHolding == old(readHolding) + if ok && k == Read then 1 else 0
      // A read finds a slot at once unless reads already hold their share.
      ensures k == Read && old(readHolding) < ReadSlotReserve(cfg) ==> ok
    {
      ok := inflight < cfg.concurrency;
      if ok {
        inflight := inflight + 1;
        if k == Read {
          readHolding := readHolding + 1;
        } else {
          contentHolding := contentHolding + 1;
        }
      }
    }

    method Release(k: Class)
      requires Valid() && (if k == Read then readHolding > 0 else contentHolding > 0)
      modifies this`inflight, this`contentInflight, this`contentHolding, this`readHolding
      ensures Valid() && inflight == old(inflight) - 1
      ensures contentInflight == old(contentInflight) - if k == Read then 0 else 1
      ensures contentHolding == old(contentHolding) - if k == Read then 0 else 1
      ensures readHolding == old(readHolding) - if k == Read then 1 else 0
    {
      inflight := inflight - 1;
      if k == Read {
        readHolding := readHolding - 1;
      } else {
        contentHolding := contentHolding - 1;
        if contentInflight > 0 {
          contentInflight := contentInflight - 1;
        }
      }
    }
  }

  /** Truncated, as a float converts to a duration. */
  function PaceNanos(deficit: real, refill: real): (n: int)
    requires deficit > 0.0 && refill > 0.0
    ensures n >= 0
  {
    PaceNonNegative(deficit, refill);
    (deficit / refill * SECOND as real).Floor
  }

  lemma PaceNonNegative(deficit: real, refill: real)
    requires deficit > 0.0 && refill > 0.0
    ensures deficit / refill * SECOND as real >= 0.0
  {
  }

  /** An upload is refused or needs one wait at most, wherever its cost can ever fit. */
  method UploadAfterOneWait(g: Governor, now: int, cost: int) returns (v: Verdict)
    requires g.Valid() && 1 <= cost <= EffectivePoints(g.cfg, Upload)
    modifies g
    ensures g.Valid() && (v == Denied || v == Wait(0))
  {
    v := g.Reserve(now, cost, Upload);
    if v.Wait? && v.nanos > 0 {
      v := g.Reserve(now + v.nanos, cost, Upload);
    }
  }

  // ----- runs

  /** An admission that may still be taken back, and the window it was made in. */
  datatype Ticket = Ticket(cost: int, kind: Class, window: Option<int>)

  datatype Event =
    | Ask(now: int, cost: int, kind: Class)
    | TakeBack(ticket: nat)
    | Headers(limit: int, remaining: int, resetAt: int, now: int)
    | LookForContent
    | Enter(kind: Class)
    | Leave(kind: Class)

  /** The requests under way: what they may take back, how many of them have a content slot but no
      slot yet, and how many hold one; the rest of the hour as last heard of, and whether a request
      has been admitted past the reset since. */
  datatype Callers = Callers(tickets: seq<Ticket>, waiting: nat, content: nat, readers: nat, heard: int, late: bool)

  ghost function Outstanding(tickets: seq<Ticket>, window: Option<int>): int {
    if tickets == [] then 0
    else Outstanding(tickets[1..], window) + if tickets[0].window == window then tickets[0].cost else 0
  }

  predicate GoodTickets(tickets: seq<Ticket>, window: Option<int>) {
    forall i :: 0 <= i < |tickets| ==>
      tickets[i].cost >= 1 && tickets[i].window.Some? && window.Some? && tickets[i].window.value <= window.value
  }

  lemma {:induction false} OutstandingNone(tickets: seq<Ticket>, window: int)
    requires forall i :: 0 <= i < |tickets| ==> tickets[i].window.Some? && tickets[i].window.value < window
    ensures Outstanding(tickets, Some(window)) == 0
  {
    if tickets != [] {
      OutstandingNone(tickets[1..], window);
    }
  }

  lemma {:induction false} OutstandingWithout(tickets: seq<Ticket>, window: Option<int>, i: nat)
    requires i < |tickets| && GoodTickets(tickets, window)
    ensures Outstanding(tickets[..i] + tickets[i + 1..], window) >= 0
    ensures Outstanding(tickets, window) ==
      Outstanding(tickets[..i] + tickets[i + 1..], window) + if tickets[i].window == window then tickets[i].cost else 0
  {
    var rest := tickets[..i] + tickets[i + 1..];
    if i == 0 {
      assert rest == tickets[1..];
      OutstandingNonNegative(rest, window);
    } else {
      OutstandingWithout(tickets[1..], window, i - 1);
      assert rest[1..] == tickets[1..][..i - 1] + tickets[1..][i..];
      assert rest[0] == tickets[0];
    }
  }

  lemma {:induction false} OutstandingNonNegative(tickets: seq<Ticket>, window: Option<int>)
    requires GoodTickets(tickets, window)
    ensures Outstanding(tickets, window) >= 0
  {
    if tickets != [] {
      OutstandingNonNegative(tickets[1..], window);
    }
  }

  /** What requests other than reads were admitted for in a window, and have not taken back. */
  ghost function NonRead(tickets: seq<Ticket>, window: Option<int>): int {
    if tickets == [] then 0
    else NonRead(tickets[1..], window) + if tickets[0].window == window && tickets[0].kind != Read then tickets[0].cost else 0
  }

  lemma {:induction false} NonReadWithin(tickets: seq<Ticket>, window: Option<int>)
    requires GoodTickets(tickets, window)
    ensures NonRead(tickets, window) <= Outstanding(tickets, window)
  {
    if tickets != [] {
      NonReadWithin(tickets[1..], window);
    }
  }

  lemma {:induction false} NonReadNone(tickets: seq<Ticket>, window: int)
    requires forall i :: 0 <= i < |tickets| ==> tickets[i].window.Some? && tickets[i].window.value < window
    ensures NonRead(tickets, Some(window)) == 0
  {
    if tickets != [] {
      NonReadNone(tickets[1..], window);
    }
  }

  lemma {:induction false} NonReadWithout(tickets: seq<Ticket>, window: Option<int>, i: nat)
    requires i < |tickets| && GoodTickets(tickets, window)
    ensures NonRead(tickets[..i] + tickets[i + 1..], window) <= NonRead(tickets, window)
  {
    var rest := tickets[..i] + tickets[i + 1..];
    if i == 0 {
      assert rest == tickets[1..];
    } else {
      NonReadWithout(tickets[1..], window, i - 1);
      assert rest[1..] == tickets[1..][..i - 1] + tickets[1..][i..];
      assert rest[0] == tickets[0];
    }
  }

  /** What holds between any two events. What is admitted in a window and not taken back exceeds its
      count by no more than what older requests took back there, and what reads have not had of it
      leaves their share free, up to the same. Until a request is admitted past the reset, the rest of
      the hour is above the reserve, or no lower than the last headers told. */
  ghost predicate InStep(g: Governor, c: Callers)
    reads g
  {
    && g.Valid()
    && GoodTickets(c.tickets, g.winStart)
    && Outstanding(c.tickets, g.winStart) <= g.spent <= g.winPoints + g.crossed
    && NonRead(c.tickets, g.winStart) <= EffectivePoints(g.cfg, Content) + g.crossed
    && g.contentHolding == c.content && g.readHolding == c.readers && g.contentInflight == c.content + c.waiting
    && (g.budget.seen && !c.late ==> g.budget.remaining >= Min(c.heard, g.cfg.reserve + 1))
  }

  /** Any run of requests, rollbacks, headers and slot traffic under any clock. The counters stay in
      bounds, content never takes the slots kept for reads, and the reset never moves back. */
  method Run(g: Governor, events: seq<Event>) returns (c: Callers)
    requires InStep(g, Callers([], 0, 0, 0, g.budget.remaining, false)) && g.winStart.None?
    modifies g
    ensures InStep(g, c)
    ensures old(g.budget).seen ==> g.budget.seen && g.budget.resetAt.value >= old(g.budget).resetAt.value
  {
    c := Callers([], 0, 0, 0, g.budget.remaining, false);
    for n := 0 to |events|
      invariant InStep(g, c)
      invariant old(g.budget).seen ==> g.budget.seen && g.budget.resetAt.value >= old(g.budget).resetAt.value
    {
      c := React(g, events[n], c);
    }
  }

  method React(g: Governor, e: Event, c: Callers) returns (now: Callers)
    requires InStep(g, c)
    modifies g
    ensures InStep(g, now)
    ensures old(g.budget).seen ==> g.budget.seen && g.budget.resetAt.value >= old(g.budget).resetAt.value
  {
    now := c;
    match e
    case Ask(at, cost, kind) =>
      if cost >= 1 {
        now := ReactToAsk(g, at, cost, kind, c);
      }
    case TakeBack(i) =>
      if i < |c.tickets| {
        var t := c.tickets[i];
        OutstandingWithout(c.tickets, g.winStart, i);
        NonReadWithout(c.tickets, g.winStart, i);
        g.Rollback(t.cost, t.kind, t.window == g.winStart);
        now := c.(tickets := c.tickets[..i] + c.tickets[i + 1..]);
      }
    case Headers(limit, remaining, resetAt, at) =>
      var before := g.budget;
      g.Observe(limit, remaining, resetAt, at);
      if g.budget != before {
        now := c.(heard := remaining, late := false);
      }
    case LookForContent =>
      var ok := g.TryContentSlot();
      if ok {
        now := c.(waiting := c.waiting + 1);
      }
    case Enter(kind) => now := ReactToEnter(g, kind, c);
    case Leave(kind) => now := ReactToLeave(g, kind, c);
  }

  method ReactToAsk(g: Governor, at: int, cost: int, kind: Class, c: Callers) returns (now: Callers)
    requires InStep(g, c) && cost >= 1
    modifies g
    ensures InStep(g, now)
    ensures old(g.budget).seen ==> g.budget.seen && g.budget.resetAt == old(g.budget).resetAt
  {
    now := c;
    var late := g.budget.seen && !BeforeReset(g.budget, at);
    var v := g.Reserve(at, cost, kind);
    if g.winStart != old(g.winStart) {
      OutstandingNone(c.tickets, at);
      NonReadNone(c.tickets, at);
    }
    if v == Wait(0) {
      TicketAdded(c.tickets, Ticket(cost, kind, g.winStart), g.winStart);
      now := c.(tickets := [Ticket(cost, kind, g.winStart)] + c.tickets, late := c.late || (late && kind != Upload));
    }
  }

  lemma TicketAdded(tickets: seq<Ticket>, t: Ticket, window: Option<int>)
    requires GoodTickets(tickets, window) && t.window == window && window.Some? && t.cost >= 1
    ensures GoodTickets([t] + tickets, window)
    ensures Outstanding([t] + tickets, window) == Outstanding(tickets, window) + t.cost
    ensures NonRead([t] + tickets, window) == NonRead(tickets, window) + if t.kind == Read then 0 else t.cost
    ensures NonRead([t] + tickets, window) <= Outstanding([t] + tickets, window)
  {
    assert ([t] + tickets)[1..] == tickets;
    NonReadWithin(tickets, window);
  }

  method ReactToEnter(g: Governor, kind: Class, c: Callers) returns (now: Callers)
    requires InStep(g, c)
    modifies g
    ensures InStep(g, now) && g.budget == old(g.budget)
    ensures kind == Read && c.readers < ReadSlotReserve(g.cfg) ==> now.readers == c.readers + 1
  {
    now := c;
    if kind == Read || c.waiting > 0 {
      var ok := g.TakeSlot(kind);
      if ok && kind == Read {
        now := c.(readers := c.readers + 1);
      } else if ok {
        now := c.(waiting := c.waiting - 1, content := c.content + 1);
      }
    }
  }

  method ReactToLeave(g: Governor, kind: Class, c: Callers) returns (now: Callers)
    requires InStep(g, c)
    modifies g
    ensures InStep(g, now) && g.budget == old(g.budget)
  {
    now := c;
    if kind == Read && c.readers > 0 {
      g.Release(kind);
      now := c.(readers := c.readers - 1);
    } else if kind != Read && c.content > 0 {
      g.Release(kind);
      now := c.(content := c.content - 1);
    }
  }

  /** Taking back a request of an earlier window makes room in the current one for more than the
      window allows: ten points out of six. */
  method CrossedRollbackOverspends() returns (g: Governor)
    ensures fresh(g) && g.Valid() && g.cfg.pointsPerMin == 6 && g.spent == 10 && g.winPoints == 5
  {
    g := new Governor(Config(0, 1, 6, 60, 16));
    var first := g.Reserve(0, 5, Upload);
    var second := g.Reserve(WINDOW, 5, Upload);
    g.Rollback(5, Upload, false);
    var third := g.Reserve(WINDOW, 5, Upload);
    assert first == second == third == Wait(0);
  }
}
