/** Lazy currency growth: whole minutes, clamped, settled when the feature closes or the growth
    changes (src/db/feature.rs:296-345, src/db/team.rs:777-782, src/db/game.rs:331-339). */
module CurrencyGrowth {
  import opened Common

  /** Time in microseconds. */
  const MINUTE: int := 60_000_000

  const I64_MIN: int := -0x8000_0000_0000_0000
  const I64_MAX: int := 0x7FFF_FFFF_FFFF_FFFF

  predicate InI64(n: int) {
    I64_MIN <= n <= I64_MAX
  }

  /** FLOOR(seconds / 60). */
  function Minutes(ticks: int): int {
    ticks / MINUTE
  }

  /** GREATEST(LEAST(amount, 0), LEAST(grown, max)). */
  function Clamp(amount: int, grown: int, max: int): int {
    Max(Min(amount, 0), Min(grown, max))
  }

  /** `current_amount` of every reading query. */
  function Current(amount: int, utime: int, growth: int, max: int, open: bool, now: int): int {
    if open then Clamp(amount, amount + Minutes(now - utime) * growth, max) else amount
  }

  /** One row of rb_team_currency with its growth and cap, and the state of the currency feature. */
  datatype Account = Account(amount: int, utime: int, open: bool)

  /** `settle_currency_growth_conn` on one row. */
  function Settle(a: Account, growth: int, max: int, at: int): Account {
    a.(amount := Clamp(a.amount, a.amount + Max(Minutes(at - a.utime), 0) * growth, max),
       utime := Max(a.utime, at))
  }

  /** The feature changing state, and settlements in between: any moment at which the row is rewritten
      from its current amount while the feature is open. With growth constant these are the team's own
      operations; a change of growth settles only if the growth differs (src/db/game.rs:331), and then
      ends the run. */
  datatype Event = SettleAt(at: int) | CloseAt(at: int) | OpenAt(at: int)

  function Step(a: Account, growth: int, max: int, e: Event): Account {
    match e
    case SettleAt(at) => if a.open then Settle(a, growth, max, at) else a
    case CloseAt(at) => if a.open then Settle(a, growth, max, at).(open := false) else a
    case OpenAt(at) => if a.open then a else a.(utime := Max(a.utime, at), open := true)
  }

  /** What a reading at `now` shows after the events. */
  function Balance(a: Account, growth: int, max: int, events: seq<Event>, now: int): int
    decreases |events|
  {
    if events == [] then Current(a.amount, a.utime, growth, max, a.open, now)
    else Balance(Step(a, growth, max, events[0]), growth, max, events[1..], now)
  }

  predicate OpenAfter(open: bool, e: Event) {
    if e.SettleAt? then open else e.OpenAt?
  }

  /** A cut of open time: a settlement or a closing while open. */
  predicate IsCut(open: bool, e: Event) {
    open && !e.OpenAt?
  }

  /** The time of the row after an event; it never goes back. */
  function TimeAfter(open: bool, utime: int, e: Event): int {
    if IsCut(open, e) || (e.OpenAt? && !open) then Max(utime, e.at) else utime
  }

  /** The ticks that are credited, in whole minutes: at each cut and at the reading those since the row's
      time. Event times may be in any order: a release phase takes effect at its own time, which can be
      earlier than the last write of a row. */
  function CreditedTime(open: bool, utime: int, events: seq<Event>, now: int): nat
    decreases |events|
  {
    if events == [] then if open then Max(now - utime, 0) else 0
    else
      var e := events[0];
      (if IsCut(open, e) then Max(e.at - utime, 0) else 0) +
      CreditedTime(OpenAfter(open, e), TimeAfter(open, utime, e), events[1..], now)
  }

  /** The reading is not before the row's time. */
  predicate ReadAfter(open: bool, utime: int, events: seq<Event>, now: int)
    decreases |events|
  {
    if events == [] then open ==> utime <= now
    else ReadAfter(OpenAfter(open, events[0]), TimeAfter(open, utime, events[0]), events[1..], now)
  }

  /** Time between effective openings and closings. A stretch begins when the feature opens, or at the
      row's time if that is later, and ends at the effective closing. */
  function EffectiveTime(open: bool, since: int, utime: int, events: seq<Event>, now: int): int
    decreases |events|
  {
    if events == [] then if open then now - since else 0
    else
      var e := events[0];
      var next := TimeAfter(open, utime, e);
      if open && e.CloseAt? then (e.at - since) + EffectiveTime(false, next, next, events[1..], now)
      else if !open && e.OpenAt? then EffectiveTime(true, next, next, events[1..], now)
      else EffectiveTime(open, since, next, events[1..], now)
  }

  /** Closed time that has been credited all the same: from each effective closing to the last write of
      the row before it was processed. */
  function LateTime(open: bool, utime: int, events: seq<Event>): nat
    decreases |events|
  {
    if events == [] then 0
    else
      var e := events[0];
      (if open && e.CloseAt? then Max(utime - e.at, 0) else 0) +
      LateTime(OpenAfter(open, e), TimeAfter(open, utime, e), events[1..])
  }

  /** Times never go back, from `from` through the events to `now`. */
  predicate InOrder(from: int, events: seq<Event>, now: int)
    decreases |events|
  {
    if events == [] then from <= now
    else from <= events[0].at && InOrder(events[0].at, events[1..], now)
  }

  /** Time during which the feature is open, between `from` and `now`. */
  function OpenTime(open: bool, from: int, events: seq<Event>, now: int): int
    decreases |events|
  {
    if events == [] then if open then now - from else 0
    else
      var e := events[0];
      (if open then e.at - from else 0) +
      OpenTime(OpenAfter(open, e), e.at, events[1..], now)
  }

  /** Number of cuts of open time (settlements and closings while open) that do not fall on a whole
      minute since the row's time. Opening an open feature is no cut. */
  function LossyCuts(open: bool, utime: int, events: seq<Event>): nat
    decreases |events|
  {
    if events == [] then 0
    else
      var e := events[0];
      (if IsCut(open, e) && Max(e.at - utime, 0) % MINUTE != 0 then 1 else 0) +
      LossyCuts(OpenAfter(open, e), TimeAfter(open, utime, e), events[1..])
  }

  /** All cuts of open time. */
  function Cuts(open: bool, events: seq<Event>): nat
    decreases |events|
  {
    if events == [] then 0
    else
      var e := events[0];
      (if IsCut(open, e) then 1 else 0) + Cuts(OpenAfter(open, e), events[1..])
  }

  /** Growth for the whole open time in one go. */
  function Ideal(amount: int, growth: int, max: int, ticks: int): int {
    Min(amount + Minutes(ticks) * growth, max)
  }

  // ----- arithmetic of whole minutes -----

  lemma MinutesOfSum(x: int, y: int)
    ensures Minutes(x) + Minutes(y) <= Minutes(x + y) <= Minutes(x) + Minutes(y) + 1
    ensures x % MINUTE == 0 ==> Minutes(x + y) == Minutes(x) + Minutes(y)
  {
  }

  lemma MulMonotone(a: int, b: int, g: int)
    requires a <= b && 0 <= g
    ensures a * g <= b * g
  {
  }

  /** One cut: growing in two pieces gives at most the growth of the whole, and less than one
      minute's growth below it, with no loss on a whole minute. */
  lemma CutLoss(amount: int, growth: int, max: int, x: int, y: int)
    requires 0 <= growth && 0 <= max && amount <= max && 0 <= x && 0 <= y
    ensures
      var cut := Clamp(amount, amount + Minutes(x) * growth, max);
      var whole := Ideal(amount, growth, max, x + y);
      && amount <= cut <= max
      && whole - (if x % MINUTE == 0 then 0 else growth) <= Ideal(cut, growth, max, y) <= whole
  {
    var mx, my, m := Minutes(x), Minutes(y), Minutes(x + y);
    MinutesOfSum(x, y);
    MulMonotone(0, mx, growth);
    MulMonotone(0, my, growth);
    MulMonotone(mx + my, m, growth);
    MulMonotone(m, mx + my + 1, growth);
    assert (mx + my) * growth == mx * growth + my * growth;
    assert (mx + my + 1) * growth == mx * growth + my * growth + growth;
  }

  /** The balance is at most the ideal for all credited ticks and, if it is not read before the row's time,
      at least one minute's growth below it for each lossy cut. */
  predicate Within(a: Account, growth: int, max: int, events: seq<Event>, now: int) {
    var ideal := Ideal(a.amount, growth, max, CreditedTime(a.open, a.utime, events, now));
    && Balance(a, growth, max, events, now) <= ideal
    && (ReadAfter(a.open, a.utime, events, now) ==>
          Balance(a, growth, max, events, now) >= ideal - growth * LossyCuts(a.open, a.utime, events))
  }

  /** For event times in any order. */
  lemma {:induction false} BalanceBounds(a: Account, growth: int, max: int, events: seq<Event>, now: int)
    requires 0 <= growth && 0 <= max && a.amount <= max
    ensures Within(a, growth, max, events, now)
    decreases |events|
  {
    if events == [] {
      ReadingWithin(a, growth, max, now);
    } else if IsCut(a.open, events[0]) {
      var e, b := events[0], Step(a, growth, max, events[0]);
      CutStep(a, growth, max, e, 0);
      BalanceBounds(b, growth, max, events[1..], now);
      CutWithin(a, growth, max, events, now);
    } else {
      BalanceBounds(Step(a, growth, max, events[0]), growth, max, events[1..], now);
    }
  }

  lemma ReadingWithin(a: Account, growth: int, max: int, now: int)
    requires 0 <= growth && 0 <= max && a.amount <= max
    ensures Within(a, growth, max, [], now)
  {
    if a.open && a.utime <= now {
      CutLoss(a.amount, growth, max, now - a.utime, 0);
    } else if a.open {
      MulMonotone(Minutes(now - a.utime), 0, growth);
    }
  }

  lemma CutWithin(a: Account, growth: int, max: int, events: seq<Event>, now: int)
    requires 0 <= growth && 0 <= max && a.amount <= max
    requires events != [] && IsCut(a.open, events[0])
    requires Within(Step(a, growth, max, events[0]), growth, max, events[1..], now)
    ensures Within(a, growth, max, events, now)
  {
    var e, rest, b := events[0], events[1..], Step(a, growth, max, events[0]);
    CutStep(a, growth, max, e, CreditedTime(b.open, b.utime, rest, now));
    AddLoss(growth, LossyCuts(b.open, b.utime, rest));
  }

  lemma CutStep(a: Account, growth: int, max: int, e: Event, y: nat)
    requires 0 <= growth && 0 <= max && a.amount <= max && IsCut(a.open, e)
    ensures
      var b := Step(a, growth, max, e);
      var x := Max(e.at - a.utime, 0);
      var whole := Ideal(a.amount, growth, max, x + y);
      && a.amount <= b.amount <= max && b.utime == TimeAfter(a.open, a.utime, e) && b.open == OpenAfter(a.open, e)
      && whole - (if x % MINUTE == 0 then 0 else growth) <= Ideal(b.amount, growth, max, y) <= whole
  {
    CutLoss(a.amount, growth, max, Max(e.at - a.utime, 0), y);
    assert Max(Minutes(e.at - a.utime), 0) == Minutes(Max(e.at - a.utime, 0));
  }

  lemma AddLoss(growth: int, k: nat)
    ensures growth * (1 + k) == growth + growth * k
    ensures growth * (0 + k) == growth * k
  {
  }

  lemma {:induction false} LossyCutsAreCuts(open: bool, utime: int, events: seq<Event>)
    ensures LossyCuts(open, utime, events) <= Cuts(open, events)
    decreases |events|
  {
    if events != [] {
      LossyCutsAreCuts(OpenAfter(open, events[0]), TimeAfter(open, utime, events[0]), events[1..]);
    }
  }

  lemma CreditedGrowth(a: Account, growth: int, max: int, events: seq<Event>, now: int)
    requires 0 <= growth && 0 <= max && a.amount <= max && ReadAfter(a.open, a.utime, events, now)
    ensures
      var ideal := Ideal(a.amount, growth, max, CreditedTime(a.open, a.utime, events, now));
      && ideal - growth * Cuts(a.open, events) <= Balance(a, growth, max, events, now) <= ideal
      && (LossyCuts(a.open, a.utime, events) == 0 ==> Balance(a, growth, max, events, now) == ideal)
  {
    BalanceBounds(a, growth, max, events, now);
    LossyCutsAreCuts(a.open, a.utime, events);
    MulMonotone(LossyCuts(a.open, a.utime, events), Cuts(a.open, events), growth);
  }

  /** Whatever the order of the times, the ticks credited are exactly the effectively open ones and the late
      ones: closed time counts only from an effective closing to the last write before it was processed. */
  lemma {:induction false} CreditedIsOpenOrLate(open: bool, since: int, utime: int, events: seq<Event>, now: int)
    requires ReadAfter(open, utime, events, now)
    ensures CreditedTime(open, utime, events, now) + (if open then utime - since else 0) ==
            EffectiveTime(open, since, utime, events, now) + LateTime(open, utime, events)
    decreases |events|
  {
    if events != [] {
      var e := events[0];
      var next := TimeAfter(open, utime, e);
      if (open && e.CloseAt?) || (!open && e.OpenAt?) {
        CreditedIsOpenOrLate(OpenAfter(open, e), next, next, events[1..], now);
      } else {
        CreditedIsOpenOrLate(OpenAfter(open, e), since, next, events[1..], now);
      }
    }
  }

  /** Over every run, with event times in any order: open time by the effective times and late time earn
      whole minutes up to the cap, less at most one minute's growth for each cut off the minute. */
  lemma GrowthOverAllRuns(a: Account, growth: int, max: int, events: seq<Event>, now: int)
    requires 0 <= growth && 0 <= max && a.amount <= max && ReadAfter(a.open, a.utime, events, now)
    ensures
      var ticks := EffectiveTime(a.open, a.utime, a.utime, events, now) + LateTime(a.open, a.utime, events);
      var ideal := Ideal(a.amount, growth, max, ticks);
      && ideal - growth * Cuts(a.open, events) <= Balance(a, growth, max, events, now) <= ideal
      && (LossyCuts(a.open, a.utime, events) == 0 ==> Balance(a, growth, max, events, now) == ideal)
  {
    CreditedIsOpenOrLate(a.open, a.utime, a.utime, events, now);
    CreditedGrowth(a, growth, max, events, now);
  }

  lemma {:induction false} InOrderIsOpenTime(open: bool, utime: int, from: int, events: seq<Event>, now: int)
    requires utime <= from && InOrder(from, events, now)
    ensures ReadAfter(open, utime, events, now) && LateTime(open, utime, events) == 0
    ensures CreditedTime(open, utime, events, now) ==
            OpenTime(open, from, events, now) + if open then from - utime else 0
    decreases |events|
  {
    if events != [] {
      var e := events[0];
      InOrderIsOpenTime(OpenAfter(open, e), TimeAfter(open, utime, e), e.at, events[1..], now);
    }
  }

  /** Over every run in time order, closed time earns nothing and open time earns its whole minutes
      up to the cap, less at most one minute's growth for each cut off the minute. */
  lemma GrowthOverRuns(a: Account, growth: int, max: int, events: seq<Event>, now: int)
    requires 0 <= growth && 0 <= max && a.amount <= max && InOrder(a.utime, events, now)
    ensures
      var ideal := Ideal(a.amount, growth, max, OpenTime(a.open, a.utime, events, now));
      && ideal - growth * Cuts(a.open, events) <= Balance(a, growth, max, events, now) <= ideal
      && (LossyCuts(a.open, a.utime, events) == 0 ==> Balance(a, growth, max, events, now) == ideal)
  {
    InOrderIsOpenTime(a.open, a.utime, a.utime, events, now);
    CreditedGrowth(a, growth, max, events, now);
  }

  /** For growth of either sign no settlement or reading takes a balance below zero, or below where
      it started if that was negative; and with max >= 0 every stored or shown value fits BIGINT. */
  lemma {:induction false} NeverBelowFloor(a: Account, growth: int, max: int, events: seq<Event>, now: int)
    ensures Balance(a, growth, max, events, now) >= Min(a.amount, 0)
    ensures 0 <= max && InI64(max) && InI64(a.amount) ==> InI64(Balance(a, growth, max, events, now))
    decreases |events|
  {
    if events != [] {
      NeverBelowFloor(Step(a, growth, max, events[0]), growth, max, events[1..], now);
    }
  }

  /** Reading at an instant and settling at that instant agree, so the order of a settlement and a
      reading at the same time does not matter. */
  lemma SettleIsReading(a: Account, growth: int, max: int, now: int)
    requires a.open && a.utime <= now
    ensures Settle(a, growth, max, now).amount == Current(a.amount, a.utime, growth, max, true, now)
    ensures 0 <= max && a.amount <= max ==>
      Balance(a, growth, max, [SettleAt(now)], now) == Balance(a, growth, max, [], now)
  {
    assert Minutes(now - a.utime) >= 0;
    var b := Settle(a, growth, max, now);
    assert Minutes(now - b.utime) == 0;
  }
}
