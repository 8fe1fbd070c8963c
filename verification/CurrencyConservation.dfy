/** Conservation of a team's currency over runs: stored amount, credited growth and logged deltas
    (src/db/team.rs:1011-1127, 1143-1218, 1393-1455, 1513-1564). */
module CurrencyConservation {
  import opened Common
  import opened CurrencyGrowth
  import opened CurrencyLedger

  function Sum(log: seq<Entry>): int {
    if log == [] then 0 else Sum(log[..|log| - 1]) + log[|log| - 1].delta
  }

  /** The operation settles the row. */
  predicate Settles(l: Ledger, op: Op) {
    l.open && ((op.SetGameGrowth? && op.newGrowth != l.gameGrowth) || (op.SetFeature? && !op.open))
  }

  /** The operation rewrites the row from its current amount (rather than being refused, or only
      setting the hidden flag). */
  predicate Rewrites(l: Ledger, current: int, op: Op) {
    match op
    case Add(_) => true
    case Spend(cost) => CostChange(current, l.max, cost).Some?
    case StaffAdjust(delta) => !l.hidden && l.open && StrictNext(current, l.max, delta).Next?
    case AdminUpdate(amount, growth, _) => amount.Some? || growth.Some?
    case BackendUpdate(amount, growth, _) =>
      (amount.None? && growth.Some?) || (amount.Some? && InI64(Min(amount.value, l.max) - current))
    case Penalty(_) => Charged(current, op)
    case Purchase(_) => Charged(current, op)
    case _ => false
  }

  /** Growth that the operation moves into the stored amount: what accrued, clamped, since the row was last written. */
  function Credit(l: Ledger, op: Op, now: int): int {
    if Settles(l, op) then SettleLedger(l, now).amount - l.amount
    else if Rewrites(l, Reading(l, op, now), op) then Reading(l, op, now) - l.amount
    else 0
  }

  /** The condition under which an administrator's update logs its true difference. */
  predicate Loggable(l: Ledger, current: int, op: Op) {
    op.AdminUpdate? && op.amount.Some? ==> InI64(Min(op.amount.value, l.max) - current)
  }

  /** What the operation appends to the log. */
  function Logged(l: Ledger, m: Ledger): int {
    Sum(m.log) - Sum(l.log)
  }

  /** What the amount moved beyond credited growth and logged deltas. */
  function Drift(l: Ledger, m: Ledger, credit: int): int {
    (m.amount - l.amount) - credit - Logged(l, m)
  }

  predicate MultipleOf64(n: int) {
    n % 0x1_0000_0000_0000_0000 == 0
  }

  lemma DriftAdds(l: Ledger, n: Ledger, m: Ledger, c: int, d: int)
    ensures Drift(l, m, c + d) == Drift(l, n, c) + Drift(n, m, d)
    ensures MultipleOf64(Drift(l, n, c)) && MultipleOf64(Drift(n, m, d)) ==> MultipleOf64(Drift(l, m, c + d))
  {
  }

  lemma LoggedEntry(l: Ledger, m: Ledger, e: Entry)
    ensures m.log == l.log + [e] ==> Logged(l, m) == e.delta
    ensures m.log == l.log ==> Logged(l, m) == 0
  {
    if m.log == l.log + [e] { assert m.log[..|m.log| - 1] == l.log; }
  }

  /** `StepConserves` for any reading and any settlement of the row. */
  ghost predicate ConservesFrom(l: Ledger, current: int, settled: Ledger, op: Op, now: int) {
    var m := ApplyFrom(l, current, settled, op, now);
    var credit :=
      if Settles(l, op) then settled.amount - l.amount
      else if Rewrites(l, current, op) then current - l.amount
      else 0;
    var drift := Drift(l, m, credit);
    MultipleOf64(drift) && (drift == 0 <==> Loggable(l, current, op))
  }

  lemma MovesConserve(l: Ledger, current: int, settled: Ledger, op: Op, now: int)
    requires Valid(l) && ValidOp(op) && current <= l.max && InI64(current)
    requires settled == l.(amount := settled.amount, utime := settled.utime)
    requires !op.AdminUpdate? && !op.BackendUpdate? && !IsPrice(op)
    ensures ConservesFrom(l, current, settled, op, now)
  {
    var m := ApplyFrom(l, current, settled, op, now);
    LoggedEntry(l, m, if |m.log| > 0 then m.log[|m.log| - 1] else Entry(Added, 0, 0, 0));
    if op.StaffAdjust? { WrapExact(op.delta); }
  }

  lemma ChargesConserve(l: Ledger, current: int, settled: Ledger, op: Op, now: int)
    requires Valid(l) && ValidOp(op) && IsPrice(op)
    ensures ConservesFrom(l, current, settled, op, now)
  {
    var m := ApplyFrom(l, current, settled, op, now);
    LoggedEntry(l, m, if |m.log| > 0 then m.log[|m.log| - 1] else Entry(Added, 0, 0, 0));
  }

  lemma AdminUpdateConserves(l: Ledger, current: int, settled: Ledger, op: Op, now: int)
    requires Valid(l) && ValidOp(op) && current <= l.max && InI64(current) && op.AdminUpdate?
    ensures ConservesFrom(l, current, settled, op, now)
  {
    var m := ApplyFrom(l, current, settled, op, now);
    LoggedEntry(l, m, if |m.log| > 0 then m.log[|m.log| - 1] else Entry(Added, 0, 0, 0));
    WrapExact(m.amount - current);
  }

  lemma BackendUpdateConserves(l: Ledger, current: int, settled: Ledger, op: Op, now: int)
    requires Valid(l) && ValidOp(op) && current <= l.max && InI64(current) && op.BackendUpdate?
    ensures ConservesFrom(l, current, settled, op, now)
  {
    var m := ApplyFrom(l, current, settled, op, now);
    LoggedEntry(l, m, if |m.log| > 0 then m.log[|m.log| - 1] else Entry(Added, 0, 0, 0));
  }

  /** One operation moves the stored amount by credited growth plus what it logs, up to a multiple
      of 2^64, and by exactly that if and only if an administrator's difference fits i64. */
  lemma StepConserves(l: Ledger, op: Op, now: int)
    requires Valid(l) && ValidOp(op)
    ensures
      var m := Apply(l, op, now);
      var drift := Drift(l, m, Credit(l, op, now));
      MultipleOf64(drift) && (drift == 0 <==> Loggable(l, CurrentAt(l, now), op))
  {
    CurrentBounds(l, now);
    var reading := Reading(l, op, now);
    if op.AdminUpdate? {
      AdminUpdateConserves(l, reading, SettleLedger(l, now), op, now);
    } else if op.BackendUpdate? {
      BackendUpdateConserves(l, reading, SettleLedger(l, now), op, now);
    } else if IsPrice(op) {
      ChargesConserve(l, reading, SettleLedger(l, now), op, now);
    } else {
      MovesConserve(l, reading, SettleLedger(l, now), op, now);
    }
  }

  function After(l: Ledger, o: (Op, int)): (m: Ledger)
    requires Valid(l) && ValidOp(o.0)
    ensures Valid(m)
  {
    ApplyKeepsValid(l, o.0, o.1);
    Apply(l, o.0, o.1)
  }

  predicate ValidOps(ops: seq<(Op, int)>) {
    forall o <- ops :: ValidOp(o.0)
  }

  function Run(l: Ledger, ops: seq<(Op, int)>): (m: Ledger)
    requires Valid(l) && ValidOps(ops)
    ensures Valid(m)
    decreases |ops|
  {
    if ops == [] then l else Run(After(l, ops[0]), ops[1..])
  }

  function Credited(l: Ledger, ops: seq<(Op, int)>): int
    requires Valid(l) && ValidOps(ops)
    decreases |ops|
  {
    if ops == [] then 0
    else Credit(l, ops[0].0, ops[0].1) + Credited(After(l, ops[0]), ops[1..])
  }

  predicate AllLoggable(l: Ledger, ops: seq<(Op, int)>)
    requires Valid(l) && ValidOps(ops)
    decreases |ops|
  {
    ops == [] ||
    (Loggable(l, CurrentAt(l, ops[0].1), ops[0].0) && AllLoggable(After(l, ops[0]), ops[1..]))
  }

  /** The first operation of a run: its credit, and whether its delta is the true one. */
  lemma RunUnfolds(l: Ledger, ops: seq<(Op, int)>) returns (n: Ledger, credit: int, exact: bool)
    requires Valid(l) && ValidOps(ops) && ops != []
    ensures Valid(n) && ValidOps(ops[1..])
    ensures Conserves(l, n, credit, exact)
    ensures Run(l, ops) == Run(n, ops[1..])
    ensures Credited(l, ops) == credit + Credited(n, ops[1..])
    ensures AllLoggable(l, ops) <==> exact && AllLoggable(n, ops[1..])
  {
    n := After(l, ops[0]);
    credit := Credit(l, ops[0].0, ops[0].1);
    exact := Loggable(l, CurrentAt(l, ops[0].1), ops[0].0);
    AfterConserves(l, ops[0]);
  }

  /** The amount moved from l to m by the credited growth plus what was logged: up to a multiple of
      2^64, and precisely where `exact` holds. */
  predicate Conserves(l: Ledger, m: Ledger, credit: int, exact: bool) {
    MultipleOf64(Drift(l, m, credit)) && (exact ==> Drift(l, m, credit) == 0)
  }

  lemma ConservesAdds(l: Ledger, n: Ledger, m: Ledger, c: int, d: int, e: bool, f: bool)
    requires Conserves(l, n, c, e) && Conserves(n, m, d, f)
    ensures Conserves(l, m, c + d, e && f)
  {
    DriftAdds(l, n, m, c, d);
  }

  lemma AfterConserves(l: Ledger, o: (Op, int))
    requires Valid(l) && ValidOp(o.0)
    ensures Conserves(l, After(l, o), Credit(l, o.0, o.1), Loggable(l, CurrentAt(l, o.1), o.0))
  {
    StepConserves(l, o.0, o.1);
  }

  /** Over any run of operations, feature changes and growth changes: the stored amount is the
      initial amount plus credited growth plus the logged deltas. */
  lemma {:induction false} LedgerConservation(l: Ledger, ops: seq<(Op, int)>)
    requires Valid(l) && ValidOps(ops)
    ensures Conserves(l, Run(l, ops), Credited(l, ops), AllLoggable(l, ops))
    decreases |ops|
  {
    if ops == [] {
      assert Drift(l, l, 0) == 0;
    } else {
      var n, credit, exact := RunUnfolds(l, ops);
      LedgerConservation(n, ops[1..]);
      ConservesAdds(l, n, Run(n, ops[1..]), credit, Credited(n, ops[1..]), exact, AllLoggable(n, ops[1..]));
    }
  }

  /** The gap in the code: an administrator setting the minimum on any positive balance logs the
      difference wrapped around, with the wrong sign. */
  lemma AdminUpdateCanWrap(l: Ledger, now: int)
    requires Valid(l) && !l.open && 0 < l.amount
    ensures
      var op := AdminUpdate(Some(I64_MIN), None, None);
      && ValidOp(op) && !Loggable(l, l.amount, op)
      && Apply(l, op, now).amount == I64_MIN
      && Apply(l, op, now).log == l.log + [Entry(Admin, I64_MAX + 1 - l.amount, l.amount, I64_MIN)]
  {
    WrapMinimum(l.amount);
  }

  lemma WrapMinimum(amount: int)
    requires 0 < amount <= I64_MAX
    ensures Wrap(I64_MIN - amount) == I64_MAX + 1 - amount
  {
  }
}
