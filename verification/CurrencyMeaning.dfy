/** What a balance reads and what each transaction leaves, in plain arithmetic (src/db/team.rs:777-782, 914-1564,
    src/db/feature.rs:296-345, src/db/game.rs:308-364). */
module CurrencyMeaning {
  import opened Common
  import opened CurrencyGrowth
  import opened CurrencyLedger

  /** m minutes, of sixty million microseconds each, have passed in full since the last write. */
  predicate MinutesPassed(l: Ledger, now: int, m: int) {
    m * 60_000_000 <= now - l.utime < (m + 1) * 60_000_000
  }

  function GrownBy(l: Ledger, m: int): int {
    l.amount + m * (l.gameGrowth + l.teamGrowth)
  }

  /** n, but at least lo and at most hi. */
  predicate IsWithin(n: int, lo: int, hi: int, r: int) {
    if n < lo then r == lo else if n > hi then r == hi else r == n
  }

  /** A closed feature shows the stored amount. An open one adds the growth of the whole minutes, up to the cap
      and down to zero, or to the stored amount if that is negative; a price is read without these last two. */
  lemma ReadingMeaning(l: Ledger, now: int, m: int)
    requires Valid(l) && MinutesPassed(l, now, m)
    ensures !l.open ==> CurrentAt(l, now) == l.amount
    ensures l.open ==> IsWithin(GrownBy(l, m), if l.amount < 0 then l.amount else 0, l.max, CurrentAt(l, now))
    ensures PriceReading(l, now) == if GrownBy(l, m) <= l.max then GrownBy(l, m) else l.max
  {
    MinutesAre(now - l.utime, m);
  }

  lemma MinutesAre(ticks: int, m: int)
    requires m * 60_000_000 <= ticks < (m + 1) * 60_000_000
    ensures Minutes(ticks) == m
  {
  }

  /** The ledger with a new amount and a log entry that says where it came from. */
  predicate IsLogged(l: Ledger, after: Ledger, now: int, source: Source, current: int, amount: int) {
    after == l.(amount := amount, utime := now, log := l.log + [Entry(source, amount - current, current, amount)])
  }

  /** The sum, but not under zero, or under the current amount if that is negative, and not over the cap. */
  lemma AddMeaning(l: Ledger, delta: int, now: int)
    requires Valid(l) && ValidOp(Add(delta))
    ensures
      var current, after := CurrentAt(l, now), Apply(l, Add(delta), now);
      && IsWithin(current + delta, if current < 0 then current else 0, l.max, after.amount)
      && IsLogged(l, after, now, Added, current, after.amount)
  {
    CurrentBounds(l, now);
    AddLands(CurrentAt(l, now), l.max, delta);
  }

  /** A cost is taken if the amount covers it, a refund if it fits, and otherwise nothing happens. */
  lemma SpendMeaning(l: Ledger, cost: int, now: int)
    requires Valid(l) && ValidOp(Spend(cost))
    ensures
      var current, after := CurrentAt(l, now), Apply(l, Spend(cost), now);
      if cost == 0 || (cost > 0 && cost <= current) || (I64_MIN < cost < 0 && current - cost <= l.max)
      then IsLogged(l, after, now, Cost, current, current - cost)
      else after == l
  {
    CurrentBounds(l, now);
    CostTakenIff(CurrentAt(l, now), l.max, cost);
  }

  /** The staff's adjustment is taken exactly if the currency is shown and open and the sum fits i64 and the cap. */
  lemma StaffAdjustTakenIff(l: Ledger, delta: int, now: int)
    requires Valid(l) && ValidOp(StaffAdjust(delta))
    ensures
      var current, after := CurrentAt(l, now), Apply(l, StaffAdjust(delta), now);
      if !l.hidden && l.open && I64_MIN <= current + delta <= I64_MAX && current + delta <= l.max
      then IsLogged(l, after, now, StaffWorkspace, current, current + delta)
      else after == l
  {
    WrapExact(delta);
  }

  /** The answer tells why an adjustment was refused. */
  lemma StaffAdjustAnswer(current: int, max: int, delta: int)
    ensures StrictNext(current, max, delta) == Overflow <==> !(I64_MIN <= current + delta <= I64_MAX)
    ensures StrictNext(current, max, delta) == AboveMax <==>
      I64_MIN <= current + delta <= I64_MAX && current + delta > max
    ensures StrictNext(current, max, delta).Next? ==> StrictNext(current, max, delta).next == current + delta
  {
  }

  /** What an update leaves besides the log: a given amount up to the cap, else the current amount if the growth
      is given, else the stored one; fields that are not given stay. */
  predicate IsUpdated(l: Ledger, u: Ledger, current: int, amount: Option<int>, growth: Option<int>,
                      hiding: Option<bool>, now: int) {
    && (amount.Some? ==> u.amount == if amount.value <= l.max then amount.value else l.max)
    && (amount.None? && growth.Some? ==> u.amount == current)
    && (amount.None? && growth.None? ==> u.amount == l.amount)
    && (u.utime == if amount.Some? || growth.Some? then now else l.utime)
    && (growth == Some(u.teamGrowth) || (growth.None? && u.teamGrowth == l.teamGrowth))
    && (hiding == Some(u.hidden) || (hiding.None? && u.hidden == l.hidden))
    && u.gameGrowth == l.gameGrowth && u.max == l.max && u.open == l.open
  }

  /** An admin's update always happens, and is logged if the amount is given and differs; the difference wraps. */
  lemma AdminUpdateMeaning(l: Ledger, amount: Option<int>, growth: Option<int>, hiding: Option<bool>, now: int)
    requires Valid(l) && ValidOp(AdminUpdate(amount, growth, hiding))
    ensures
      var current, u := CurrentAt(l, now), Apply(l, AdminUpdate(amount, growth, hiding), now);
      && IsUpdated(l, u, current, amount, growth, hiding, now)
      && (amount.None? || u.amount == current ==> u.log == l.log)
      && (amount.Some? && u.amount != current ==>
            exists delta :: I64_MIN <= delta <= I64_MAX
              && (delta - (u.amount - current)) % 0x1_0000_0000_0000_0000 == 0
              && u.log == l.log + [Entry(Admin, delta, current, u.amount)])
  {
    CurrentBounds(l, now);
    WrapExact(Apply(l, AdminUpdate(amount, growth, hiding), now).amount - CurrentAt(l, now));
  }

  /** A backend's update is logged whenever the amount is given, and none at all if the difference overflows. */
  lemma BackendUpdateMeaning(l: Ledger, amount: Option<int>, growth: Option<int>, hiding: Option<bool>, now: int)
    requires Valid(l) && ValidOp(BackendUpdate(amount, growth, hiding))
    ensures
      var current, u := CurrentAt(l, now), Apply(l, BackendUpdate(amount, growth, hiding), now);
      var difference := if amount.None? then 0 else (if amount.value <= l.max then amount.value else l.max) - current;
      if I64_MIN <= difference <= I64_MAX
      then
        && IsUpdated(l, u, current, amount, growth, hiding, now)
        && u.log == if amount.None? then l.log else l.log + [Entry(Backend, difference, current, u.amount)]
      else u == l
  {
    CurrentBounds(l, now);
  }

  /** A penalty is subtracted without a floor; one that overflows fails. */
  lemma PenaltyMeaning(l: Ledger, penalty: int, now: int)
    requires Valid(l) && ValidOp(Penalty(penalty))
    ensures
      var reading, after := PriceReading(l, now), Apply(l, Penalty(penalty), now);
      if reading - penalty >= I64_MIN && reading <= I64_MAX
      then IsLogged(l, after, now, Penalized, reading, reading - penalty)
      else after == l
  {
  }

  /** A price is paid exactly if it is covered, or is nothing. */
  lemma PurchaseMeaning(l: Ledger, price: int, now: int)
    requires Valid(l) && ValidOp(Purchase(price))
    ensures
      var reading, after := PriceReading(l, now), Apply(l, Purchase(price), now);
      if I64_MIN <= reading && (price == 0 || price <= reading)
      then IsLogged(l, after, now, Purchased, reading, reading - price)
      else after == l
  {
  }

  /** A change of the game's growth or of the feature, not before the last write: the balance reads the same
      before and after at that moment, what was earned is kept, nothing is earned while closed, and only the
      change asked for is made. */
  lemma SwitchMeaning(l: Ledger, op: Op, now: int)
    requires Valid(l) && (op.SetGameGrowth? || op.SetFeature?) && l.utime <= now
    ensures
      var u := Apply(l, op, now);
      && CurrentAt(u, now) == CurrentAt(l, now)
      && u.gameGrowth == (if op.SetGameGrowth? then op.newGrowth else l.gameGrowth)
      && u.open == (if op.SetFeature? then op.open else l.open)
      && u == l.(amount := u.amount, utime := u.utime, gameGrowth := u.gameGrowth, open := u.open)
      && (!u.open ==> u.amount == CurrentAt(l, now))
      && (u.open && !l.open ==> u.amount == l.amount && u.utime == now)
      && (l.open && l.gameGrowth != u.gameGrowth ==> u.amount == CurrentAt(l, now) && u.utime == now)
  {
    CurrentBounds(l, now);
    assert Minutes(0) == 0;
    var u := Apply(l, op, now);
    if u.utime == now { NoMinutes(u, now); }
  }

  lemma NoMinutes(l: Ledger, now: int)
    requires Valid(l) && l.utime == now
    ensures CurrentAt(l, now) == l.amount
  {
    assert Minutes(now - l.utime) * (l.gameGrowth + l.teamGrowth) == 0;
  }
}
