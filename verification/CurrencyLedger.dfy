/** One team's balance in one currency and its log of deltas (src/db/team.rs:914-1564,
    src/db/feature.rs:296-345, src/db/game.rs:308-364, src/db/puzzle.rs:1562-1643, 2950-2995). */
module CurrencyLedger {
  import opened Common
  import opened CurrencyGrowth

  datatype Source = Added | Cost | StaffWorkspace | Admin | Backend | Penalized | Purchased

  /** A logged change: `delta_amount` with the before and after amounts. */
  datatype Entry = Entry(source: Source, delta: int, before: int, after: int)

  /** rb_team_currency and rb_currency columns, the feature state, and the event log. */
  datatype Ledger = Ledger(
    amount: int,
    utime: int,
    teamGrowth: int,
    hidden: bool,
    gameGrowth: int,
    max: int,
    open: bool,
    log: seq<Entry>
  )

  datatype Op =
    | Add(delta: int)
    | Spend(cost: int)
    | StaffAdjust(delta: int)
    | AdminUpdate(amount: Option<int>, growth: Option<int>, hiding: Option<bool>)
    | BackendUpdate(amount: Option<int>, growth: Option<int>, hiding: Option<bool>)
    | Penalty(penalty: int)
    | Purchase(price: int)
    | SetGameGrowth(newGrowth: int)
    | SetFeature(open: bool)

  function CurrentAt(l: Ledger, now: int): int {
    Current(l.amount, l.utime, l.gameGrowth + l.teamGrowth, l.max, l.open, now)
  }

  /** The reading of the penalty and purchase statements: no lower clamp, and no look at the feature. */
  function PriceReading(l: Ledger, now: int): int {
    Min(l.amount + Minutes(now - l.utime) * (l.gameGrowth + l.teamGrowth), l.max)
  }

  predicate IsPrice(op: Op) {
    op.Penalty? || op.Purchase?
  }

  /** The amount an operation starts from. */
  function Reading(l: Ledger, op: Op, now: int): int {
    if IsPrice(op) then PriceReading(l, now) else CurrentAt(l, now)
  }

  /** The charge goes through: the reading and the result fit the column, and a purchase is covered. */
  predicate Charged(reading: int, op: Op) {
    match op
    case Penalty(p) => InI64(reading) && InI64(reading - p)
    case Purchase(p) => InI64(reading) && (p <= 0 || reading >= p)
    case _ => false
  }

  /** Column ranges, the cap of `valid_currency_data`, and the start at or below the cap. */
  predicate Valid(l: Ledger) {
    InI64(l.amount) && InI64(l.max) && 0 <= l.max && l.amount <= l.max
  }

  // ----- i64 arithmetic of the source -----

  function CheckedAdd(a: int, b: int): Option<int> {
    if InI64(a + b) then Some(a + b) else None
  }

  function SaturatingAdd(a: int, b: int): int {
    Max(I64_MIN, Min(a + b, I64_MAX))
  }

  /** An unchecked i64 operation in a build without overflow checks. */
  function Wrap(n: int): int {
    (n - I64_MIN) % 0x1_0000_0000_0000_0000 + I64_MIN
  }

  datatype StrictBoundary = Overflow | AboveMax | Next(next: int)

  function StrictNext(current: int, max: int, delta: int): StrictBoundary {
    match CheckedAdd(current, delta)
    case None => Overflow
    case Some(next) => if next > max then AboveMax else Next(next)
  }

  /** `currency_cost_change`: the next amount and the delta, or a refusal. */
  function CostChange(current: int, max: int, cost: int): Option<(int, int)> {
    if !InI64(-cost) then None
    else
      match CheckedAdd(current, -cost)
      case None => None
      case Some(next) =>
        if (cost > 0 && next < 0) || (cost < 0 && next > max) then None else Some((next, -cost))
  }

  /** `i64::clamp`. */
  function ClampTo(n: int, lo: int, hi: int): int {
    Max(lo, Min(n, hi))
  }

  function AddedAmount(current: int, max: int, delta: int): int {
    ClampTo(SaturatingAdd(current, delta), Min(current, 0), max)
  }

  // ----- specification of the operations -----

  function Write(l: Ledger, amount: int, now: int): Ledger {
    l.(amount := amount, utime := now)
  }

  function Log(l: Ledger, source: Source, delta: int, before: int): Ledger {
    l.(log := l.log + [Entry(source, delta, before, l.amount)])
  }

  /** `apply_currency_update_conn`, given the current amount. */
  function ApplyUpdate(l: Ledger, current: int, amount: Option<int>, growth: Option<int>, hiding: Option<bool>,
                       now: int): Ledger {
    var next := Min(if amount.Some? then amount.value else current, l.max);
    var touched := amount.Some? || growth.Some?;
    l.(amount := if touched then next else l.amount,
       utime := if touched then now else l.utime,
       teamGrowth := if growth.Some? then growth.value else l.teamGrowth,
       hidden := if hiding.Some? then hiding.value else l.hidden)
  }

  function SettleLedger(l: Ledger, at: int): Ledger {
    var a := Settle(Account(l.amount, l.utime, l.open), l.gameGrowth + l.teamGrowth, l.max, at);
    l.(amount := a.amount, utime := a.utime)
  }

  /** The ledger after one transaction; a refused or failed one leaves it as it was. */
  function Apply(l: Ledger, op: Op, now: int): Ledger {
    ApplyFrom(l, Reading(l, op, now), SettleLedger(l, now), op, now)
  }

  /** The same, given the amount read under the row lock and the outcome of a settlement. */
  function ApplyFrom(l: Ledger, current: int, settled: Ledger, op: Op, now: int): Ledger {
    match op
    case Add(delta) =>
      var stored := AddedAmount(current, l.max, delta);
      Log(Write(l, stored, now), Added, stored - current, current)
    case Spend(cost) =>
      (match CostChange(current, l.max, cost)
       case None => l
       case Some(change) => Log(Write(l, change.0, now), Cost, change.1, current))
    case StaffAdjust(delta) =>
      if l.hidden || !l.open then l
      else
        (match StrictNext(current, l.max, delta)
         case Next(next) => Log(Write(l, next, now), StaffWorkspace, Wrap(next - current), current)
         case _ => l)
    case AdminUpdate(amount, growth, hiding) =>
      var m := ApplyUpdate(l, current, amount, growth, hiding, now);
      if amount.Some? && m.amount != current then Log(m, Admin, Wrap(m.amount - current), current) else m
    case BackendUpdate(amount, growth, hiding) =>
      var m := ApplyUpdate(l, current, amount, growth, hiding, now);
      if amount.None? then m
      else if InI64(m.amount - current) then Log(m, Backend, m.amount - current, current)
      else l
    case Penalty(p) =>
      if Charged(current, op) then Log(Write(l, current - p, now), Penalized, -p, current) else l
    case Purchase(p) =>
      if Charged(current, op) then Log(Write(l, current - p, now), Purchased, -p, current) else l
    case SetGameGrowth(g) =>
      (if g != l.gameGrowth && l.open then settled else l).(gameGrowth := g)
    case SetFeature(open) =>
      if open == l.open then l
      else if open then l.(open := true, utime := Max(l.utime, now))
      else settled.(open := false)
  }

  // ----- the operations in place -----

  class TeamCurrency {
    var amount: int
    var utimeAt: int
    var teamGrowth: int
    var hidden: bool
    var gameGrowth: int
    var maxAmount: int
    var featureOpen: bool
    var log: seq<Entry>

    function State(): Ledger
      reads this
    {
      Ledger(amount, utimeAt, teamGrowth, hidden, gameGrowth, maxAmount, featureOpen, log)
    }

    constructor (init: Ledger)
      requires Valid(init)
      ensures State() == init
    {
      amount, utimeAt, teamGrowth, hidden := init.amount, init.utime, init.teamGrowth, init.hidden;
      gameGrowth, maxAmount, featureOpen, log := init.gameGrowth, init.max, init.open, init.log;
    }

    /** `lock_currency_runtime_conn`. */
    method CurrentAmount(now: int) returns (current: int)
      ensures current == CurrentAt(State(), now)
    {
      current := amount;
      if featureOpen {
        var minutes := (now - utimeAt) / MINUTE;
        var grown := amount + minutes * (gameGrowth + teamGrowth);
        current := Max(Min(amount, 0), Min(grown, maxAmount));
      }
    }

    method AddCurrency(delta: int, now: int) returns (actualGrowth: int)
      requires Valid(State())
      modifies this
      ensures State() == Apply(old(State()), Add(delta), now)
      ensures actualGrowth == amount - CurrentAt(old(State()), now)
    {
      var current := CurrentAmount(now);
      var nextAmount := SaturatingAdd(current, delta);
      var stored := ClampTo(nextAmount, Min(current, 0), maxAmount);
      actualGrowth := stored - current;
      amount, utimeAt := stored, now;
      log := log + [Entry(Added, actualGrowth, current, stored)];
    }

    method CostCurrency(cost: int, now: int) returns (ok: bool)
      requires Valid(State())
      modifies this
      ensures State() == Apply(old(State()), Spend(cost), now)
      ensures ok <==> CostChange(CurrentAt(old(State()), now), old(maxAmount), cost).Some?
    {
      var current := CurrentAmount(now);
      var change := CostChange(current, maxAmount, cost);
      if change.None? {
        return false;
      }
      amount, utimeAt := change.value.0, now;
      log := log + [Entry(Cost, change.value.1, current, amount)];
      ok := true;
    }

    method StaffAdjustCurrency(delta: int, now: int) returns (result: Option<StrictBoundary>)
      requires Valid(State())
      modifies this
      ensures State() == Apply(old(State()), StaffAdjust(delta), now)
      ensures result == if old(hidden) || !old(featureOpen) then None
                        else Some(StrictNext(CurrentAt(old(State()), now), old(maxAmount), delta))
    {
      if hidden || !featureOpen {
        return None;
      }
      var current := CurrentAmount(now);
      var boundary := StrictNext(current, maxAmount, delta);
      if boundary.Next? {
        amount, utimeAt := boundary.next, now;
        log := log + [Entry(StaffWorkspace, Wrap(amount - current), current, amount)];
      }
      result := Some(boundary);
    }

    method ApplyCurrencyUpdate(current: int, newAmount: Option<int>, growth: Option<int>, hiding: Option<bool>,
                               now: int)
      modifies this
      ensures State() == ApplyUpdate(old(State()), current, newAmount, growth, hiding, now)
    {
      if newAmount.Some? || growth.Some? {
        amount := Min(if newAmount.Some? then newAmount.value else current, maxAmount);
        utimeAt := now;
      }
      if growth.Some? {
        teamGrowth := growth.value;
      }
      if hiding.Some? {
        hidden := hiding.value;
      }
    }

    method AdminUpdateCurrency(newAmount: Option<int>, growth: Option<int>, hiding: Option<bool>, now: int)
      requires Valid(State())
      modifies this
      ensures State() == Apply(old(State()), AdminUpdate(newAmount, growth, hiding), now)
    {
      var current := CurrentAmount(now);
      ApplyCurrencyUpdate(current, newAmount, growth, hiding, now);
      if newAmount.Some? {
        var after := Min(newAmount.value, maxAmount);
        if after != current {
          log := log + [Entry(Admin, Wrap(after - current), current, after)];
        }
      }
    }

    /** The event is written after the row; an overflowing delta rolls both back. */
    method BackendUpdateCurrency(newAmount: Option<int>, growth: Option<int>, hiding: Option<bool>, now: int)
      returns (committed: bool)
      requires Valid(State())
      modifies this
      ensures State() == Apply(old(State()), BackendUpdate(newAmount, growth, hiding), now)
      ensures committed <==>
        newAmount.None? || InI64(Min(newAmount.value, old(maxAmount)) - CurrentAt(old(State()), now))
    {
      var current := CurrentAmount(now);
      if newAmount.Some? && !InI64(Min(newAmount.value, maxAmount) - current) {
        return false;
      }
      ApplyCurrencyUpdate(current, newAmount, growth, hiding, now);
      if newAmount.Some? {
        var after := Min(newAmount.value, maxAmount);
        log := log + [Entry(Backend, after - current, current, after)];
      }
      committed := true;
    }

    /** The reading shared by the penalty and purchase statements; casting it to BIGINT can fail. */
    method ReadPrice(now: int) returns (reading: Option<int>)
      ensures reading == if InI64(PriceReading(State(), now)) then Some(PriceReading(State(), now)) else None
    {
      var grown := amount + (now - utimeAt) / MINUTE * (gameGrowth + teamGrowth);
      var capped := if grown <= maxAmount then grown else maxAmount;
      reading := if InI64(capped) then Some(capped) else None;
    }

    /** The currency penalty of a wrong submission: no floor; an overflow fails the submission. */
    method ChargePenalty(penalty: int, now: int) returns (charged: bool)
      requires Valid(State()) && ValidOp(Penalty(penalty))
      modifies this
      ensures State() == Apply(old(State()), Penalty(penalty), now)
      ensures charged <==> Charged(PriceReading(old(State()), now), Penalty(penalty))
    {
      var current := ReadPrice(now);
      if current.None? || !InI64(current.value - penalty) {
        return false;
      }
      amount, utimeAt := current.value - penalty, now;
      log := log + [Entry(Penalized, -penalty, current.value, amount)];
      charged := true;
    }

    /** The price of a hint or a ticket message. */
    method PayPrice(price: int, now: int) returns (paid: bool)
      requires Valid(State()) && ValidOp(Purchase(price))
      modifies this
      ensures State() == Apply(old(State()), Purchase(price), now)
      ensures paid <==> Charged(PriceReading(old(State()), now), Purchase(price))
    {
      var current := ReadPrice(now);
      if current.None? || !(price <= 0 || current.value >= price) {
        return false;
      }
      amount, utimeAt := current.value - price, now;
      log := log + [Entry(Purchased, amount - current.value, current.value, amount)];
      paid := true;
    }

    method SettleGrowth(at: int)
      modifies this
      ensures State() == SettleLedger(old(State()), at)
    {
      var minutes := Max((at - utimeAt) / MINUTE, 0);
      var grown := amount + minutes * (gameGrowth + teamGrowth);
      amount := Max(Min(amount, 0), Min(grown, maxAmount));
      utimeAt := Max(utimeAt, at);
    }

    /** `update_currency` of src/db/game.rs: settle first when the growth changes. */
    method UpdateGameGrowth(growth: int, now: int)
      requires Valid(State())
      modifies this
      ensures State() == Apply(old(State()), SetGameGrowth(growth), now)
    {
      if gameGrowth != growth && featureOpen {
        SettleGrowth(now);
      }
      gameGrowth := growth;
    }

    /** The currency arm of `set_state_conn`. */
    method SetCurrencyFeature(open: bool, at: int)
      requires Valid(State())
      modifies this
      ensures State() == Apply(old(State()), SetFeature(open), at)
    {
      if featureOpen != open {
        if open {
          utimeAt := Max(utimeAt, at);
        } else {
          SettleGrowth(at);
        }
        featureOpen := open;
      }
    }
  }

  // ----- single operations -----

  /** Adding lands between min(current, 0) and the cap, exactly where unbounded addition clamped
      there would, and the logged difference fits i64, for every current amount the column can hold. */
  lemma AddLands(current: int, max: int, delta: int)
    requires InI64(current) && InI64(max) && InI64(delta) && 0 <= max
    ensures Min(current, 0) <= AddedAmount(current, max, delta) <= max
    ensures AddedAmount(current, max, delta) == ClampTo(current + delta, Min(current, 0), max)
    ensures InI64(AddedAmount(current, max, delta) - current)
    ensures current <= max && delta >= 0 ==> 0 <= AddedAmount(current, max, delta) - current <= delta
    ensures delta <= 0 ==> AddedAmount(current, max, delta) <= Max(current, Min(current, 0))
  {
  }

  /** A positive cost is taken exactly when it is covered, a refund exactly when it fits under the
      cap; no positive cost leaves a negative balance. */
  lemma CostTakenIff(current: int, max: int, cost: int)
    requires InI64(current) && InI64(max) && InI64(cost)
    ensures cost > 0 ==> (CostChange(current, max, cost).Some? <==> cost <= current)
    ensures cost == 0 ==> CostChange(current, max, cost).Some?
    ensures cost < 0 ==> (CostChange(current, max, cost).Some? <==> cost != I64_MIN && current - cost <= max)
    ensures CostChange(current, max, cost).Some? ==>
      && CostChange(current, max, cost).value == (current - cost, -cost)
      && (cost > 0 ==> 0 <= current - cost)
  {
  }

  lemma WrapExact(n: int)
    ensures InI64(Wrap(n))
    ensures Wrap(n) == n <==> InI64(n)
    ensures (Wrap(n) - n) % 0x1_0000_0000_0000_0000 == 0
  {
  }

  // ----- every reachable ledger is valid -----

  predicate ValidOp(op: Op) {
    match op
    case Add(delta) => InI64(delta)
    case Spend(cost) => InI64(cost)
    case StaffAdjust(delta) => InI64(delta)
    case AdminUpdate(amount, _, _) => amount.Some? ==> InI64(amount.value)
    case BackendUpdate(amount, _, _) => amount.Some? ==> InI64(amount.value)
    case Penalty(p) => 0 < p && InI64(p)
    case Purchase(p) => 0 <= p && InI64(p)
    case _ => true
  }

  lemma CurrentBounds(l: Ledger, now: int)
    requires Valid(l)
    ensures Min(l.amount, 0) <= CurrentAt(l, now) <= l.max && InI64(CurrentAt(l, now))
  {
  }

  lemma ApplyKeepsValid(l: Ledger, op: Op, now: int)
    requires Valid(l) && ValidOp(op)
    ensures Valid(Apply(l, op, now)) && Apply(l, op, now).max == l.max
  {
    CurrentBounds(l, now);
    if op.Add? {
      AddLands(CurrentAt(l, now), l.max, op.delta);
    }
  }

  // ----- what the operations do to a balance that is not negative -----

  /** The two readings agree, while the feature is open, exactly unless negative growth has passed the
      lower clamp, and, while it is closed, exactly if the elapsed minutes would earn nothing. */
  lemma ReadingsAgreeIff(l: Ledger, now: int)
    requires Valid(l)
    ensures
      var earned := Minutes(now - l.utime) * (l.gameGrowth + l.teamGrowth);
      PriceReading(l, now) == CurrentAt(l, now) <==>
        if l.open then l.amount + earned >= Min(l.amount, 0) else earned == 0 || (earned > 0 && l.amount == l.max)
  {
  }

  /** Adding, spending, growth and feature changes keep a non-negative balance between 0 and the cap. So
      does a charge, except a penalty above the reading, and a free purchase at a negative reading. */
  lemma NonNegativeIff(l: Ledger, op: Op, now: int)
    requires Valid(l) && ValidOp(op) && 0 <= l.amount
    requires op.Add? || op.Spend? || op.SetGameGrowth? || op.SetFeature? || IsPrice(op)
    ensures Apply(l, op, now).amount <= l.max
    ensures
      var reading := PriceReading(l, now);
      0 <= Apply(l, op, now).amount <==>
        !(Charged(reading, op) &&
          ((op.Penalty? && reading < op.penalty) || (op.Purchase? && op.price == 0 && reading < 0)))
  {
    CurrentBounds(l, now);
    if op.Add? { AddLands(CurrentAt(l, now), l.max, op.delta); }
    if op.Spend? { CostTakenIff(CurrentAt(l, now), l.max, op.cost); }
  }

  /** So a penalty can leave any balance that covers less negative. */
  lemma PenaltyGoesNegativeIff(l: Ledger, penalty: int, now: int)
    requires Valid(l) && ValidOp(Penalty(penalty)) && l.open && 0 <= l.gameGrowth + l.teamGrowth && l.utime <= now
    requires 0 <= l.amount
    ensures Apply(l, Penalty(penalty), now).amount < 0 <==> CurrentAt(l, now) < penalty
  {
    MulMonotone(0, Minutes(now - l.utime), l.gameGrowth + l.teamGrowth);
    ReadingsAgreeIff(l, now);
    NonNegativeIff(l, Penalty(penalty), now);
  }
}
