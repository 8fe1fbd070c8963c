/** Where credited growth comes from: open time, and nothing else but lateness (src/db/team.rs:777-782,
    947-976, src/db/feature.rs:296-345, src/db/puzzle.rs:1562-1586, src/module/release.rs:52-74). */
module CurrencyAccrual {
  import opened Common
  import opened CurrencyGrowth
  import opened CurrencyLedger
  import opened CurrencyConservation

  function Growth(l: Ledger): int {
    l.gameGrowth + l.teamGrowth
  }

  /** The operation leaves the growth of the currency and of the team as they are. */
  predicate KeepsGrowth(l: Ledger, op: Op) {
    match op
    case AdminUpdate(_, growth, _) => growth.Some? ==> growth.value == l.teamGrowth
    case BackendUpdate(_, growth, _) => growth.Some? ==> growth.value == l.teamGrowth
    case SetGameGrowth(growth) => growth == l.gameGrowth
    case _ => true
  }

  /** Growth stays as it is; penalties and purchases come while the feature is open; every operation but a
      change of the feature happens at the present moment, so not before the row's time. A change of the
      feature by a release phase takes effect at the phase's own time, which can be earlier. */
  predicate SteadyOp(l: Ledger, op: Op, at: int) {
    && KeepsGrowth(l, op)
    && (IsPrice(op) ==> l.open)
    && (!op.SetFeature? ==> l.utime <= at)
  }

  predicate Steady(l: Ledger, ops: seq<(Op, int)>, now: int)
    requires Valid(l) && ValidOps(ops)
    decreases |ops|
  {
    if ops == [] then l.open ==> l.utime <= now
    else SteadyOp(l, ops[0].0, ops[0].1) && Steady(After(l, ops[0]), ops[1..], now)
  }

  /** A write of the row while the feature is open, which starts counting minutes anew. */
  predicate Cuts(l: Ledger, op: Op, now: int) {
    l.open && (Settles(l, op) || Rewrites(l, Reading(l, op, now), op))
  }

  /** Ticks from the row's time on. */
  function Elapsed(l: Ledger, at: int): nat {
    Max(at - l.utime, 0)
  }

  /** The ticks that are credited, in whole minutes: at each cut and at the end those since the row's time. */
  function CreditedTicks(l: Ledger, ops: seq<(Op, int)>, now: int): nat
    requires Valid(l) && ValidOps(ops)
    decreases |ops|
  {
    if ops == [] then if l.open then Elapsed(l, now) else 0
    else
      (if Cuts(l, ops[0].0, ops[0].1) then Elapsed(l, ops[0].1) else 0) +
      CreditedTicks(After(l, ops[0]), ops[1..], now)
  }

  /** Ticks between effective openings and closings. A stretch begins when the feature opens, or at the
      row's time if that is later, and ends at the effective closing. */
  function OpenTicks(l: Ledger, ops: seq<(Op, int)>, since: int, now: int): int
    requires Valid(l) && ValidOps(ops)
    decreases |ops|
  {
    if ops == [] then if l.open then now - since else 0
    else
      var n := After(l, ops[0]);
      if l.open && !n.open then (ops[0].1 - since) + OpenTicks(n, ops[1..], n.utime, now)
      else OpenTicks(n, ops[1..], if n.open && !l.open then n.utime else since, now)
  }

  /** Closed ticks that have been credited all the same: from each effective closing to the last write of
      the row before it was processed. */
  function LateTicks(l: Ledger, ops: seq<(Op, int)>): nat
    requires Valid(l) && ValidOps(ops)
    decreases |ops|
  {
    if ops == [] then 0
    else
      var n := After(l, ops[0]);
      (if l.open && !n.open then Max(l.utime - ops[0].1, 0) else 0) + LateTicks(n, ops[1..])
  }

  /** Cuts that do not fall on a whole minute since the row's time. */
  function LossyCuts(l: Ledger, ops: seq<(Op, int)>): nat
    requires Valid(l) && ValidOps(ops)
    decreases |ops|
  {
    if ops == [] then 0
    else
      (if Cuts(l, ops[0].0, ops[0].1) && Elapsed(l, ops[0].1) % MINUTE != 0 then 1 else 0) +
      LossyCuts(After(l, ops[0]), ops[1..])
  }

  /** The cap does not cut growth off at that moment. */
  predicate BelowCap(l: Ledger, at: int) {
    l.open ==> l.amount + Minutes(Elapsed(l, at)) * Growth(l) <= l.max
  }

  /** Nor at any cut, nor at the end. */
  predicate Uncapped(l: Ledger, ops: seq<(Op, int)>, now: int)
    requires Valid(l) && ValidOps(ops)
    decreases |ops|
  {
    if ops == [] then BelowCap(l, now)
    else
      && (Cuts(l, ops[0].0, ops[0].1) ==> BelowCap(l, ops[0].1))
      && Uncapped(After(l, ops[0]), ops[1..], now)
  }

  /** Growth credited over the run and, at its end, still to be credited. */
  function Earned(l: Ledger, ops: seq<(Op, int)>, now: int): int
    requires Valid(l) && ValidOps(ops)
  {
    Credited(l, ops) + (CurrentAt(Run(l, ops), now) - Run(l, ops).amount)
  }

  // ----- one operation -----

  /** A cut credits the whole minutes since the row's time, up to the cap. */
  lemma CutCredits(l: Ledger, op: Op, at: int)
    requires Valid(l) && ValidOp(op) && 0 <= Growth(l) && SteadyOp(l, op, at) && Cuts(l, op, at)
    ensures Credit(l, op, at) == Min(Minutes(Elapsed(l, at)) * Growth(l), l.max - l.amount)
    ensures Apply(l, op, at).utime == Max(l.utime, at)
  {
    MulMonotone(0, Minutes(Elapsed(l, at)), Growth(l));
    assert Max(Minutes(at - l.utime), 0) == Minutes(Elapsed(l, at));
  }

  /** Anything else credits nothing, and leaves the time of an open row alone. */
  lemma OthersCreditNothing(l: Ledger, op: Op, at: int)
    requires Valid(l) && ValidOp(op) && SteadyOp(l, op, at) && !Cuts(l, op, at)
    ensures Credit(l, op, at) == 0
    ensures
      var m := Apply(l, op, at);
      && (l.open ==> m.open && m.utime == l.utime)
      && (m.open && !l.open ==> m.utime == Max(l.utime, at))
  {
  }

  /** A charge while the feature is closed credits the minutes since the last write all the same, so
      the runs below take charges while it is open only. */
  lemma ClosedChargeCredits(l: Ledger, op: Op, at: int)
    requires Valid(l) && ValidOp(op) && IsPrice(op) && !l.open
    ensures
      var earned := Minutes(at - l.utime) * Growth(l);
      && (Charged(PriceReading(l, at), op) ==> Credit(l, op, at) == Min(earned, l.max - l.amount))
      && (Credit(l, op, at) == 0 <==>
            !Charged(PriceReading(l, at), op) || earned == 0 || (earned > 0 && l.amount == l.max))
  {
  }

  lemma GrowthKept(l: Ledger, op: Op, at: int)
    requires KeepsGrowth(l, op)
    ensures Growth(Apply(l, op, at)) == Growth(l) && Apply(l, op, at).max == l.max
  {
  }

  // ----- runs -----

  /** Two pieces of time: at most the growth of the whole, and less than one minute's growth below it. */
  lemma PiecesOfTime(g: int, x: int, y: int, rest: int, lossy: nat)
    requires 0 <= g && 0 <= x && 0 <= y
    ensures rest <= Minutes(y) * g ==> Minutes(x) * g + rest <= Minutes(x + y) * g
    ensures rest >= Minutes(y) * g - lossy * g ==>
      Minutes(x) * g + rest >= Minutes(x + y) * g - ((if x % MINUTE != 0 then 1 else 0) + lossy) * g
  {
    MinutesOfSum(x, y);
    var m, both := Minutes(x) + Minutes(y), Minutes(x + y);
    MulMonotone(m, both, g);
    MulMonotone(both, m + 1, g);
    assert m * g == Minutes(x) * g + Minutes(y) * g;
    assert (m + 1) * g == m * g + g;
    assert (1 + lossy) * g == g + lossy * g;
  }

  /** What `Earned` is worth in time. */
  predicate Accrues(l: Ledger, ops: seq<(Op, int)>, now: int)
    requires Valid(l) && ValidOps(ops)
  {
    var grown := Minutes(CreditedTicks(l, ops, now)) * Growth(l);
    && 0 <= Earned(l, ops, now) <= grown
    && (Uncapped(l, ops, now) ==> Earned(l, ops, now) >= grown - LossyCuts(l, ops) * Growth(l))
  }

  lemma NothingDoneAccrues(l: Ledger, now: int)
    requires Valid(l) && 0 <= Growth(l) && (l.open ==> l.utime <= now)
    ensures Accrues(l, [], now)
  {
    if l.open { MulMonotone(0, Minutes(now - l.utime), Growth(l)); }
  }

  lemma CutAccrues(l: Ledger, ops: seq<(Op, int)>, now: int)
    requires Valid(l) && ValidOps(ops) && ops != [] && 0 <= Growth(l)
    requires SteadyOp(l, ops[0].0, ops[0].1) && Cuts(l, ops[0].0, ops[0].1)
    requires Accrues(After(l, ops[0]), ops[1..], now)
    ensures Accrues(l, ops, now)
  {
    var op, at, n := ops[0].0, ops[0].1, After(l, ops[0]);
    CutCredits(l, op, at);
    GrowthKept(l, op, at);
    assert Earned(l, ops, now) == Credit(l, op, at) + Earned(n, ops[1..], now);
    CutBounds(Growth(l), Elapsed(l, at), CreditedTicks(n, ops[1..], now), l.max - l.amount, Credit(l, op, at),
              Earned(n, ops[1..], now), LossyCuts(n, ops[1..]));
  }

  lemma CutBounds(g: int, x: int, y: int, room: int, credit: int, rest: int, lossy: nat)
    requires 0 <= g && 0 <= x && 0 <= y && 0 <= room
    requires credit == Min(Minutes(x) * g, room) && 0 <= rest <= Minutes(y) * g
    ensures 0 <= credit + rest <= Minutes(x + y) * g
    ensures Minutes(x) * g <= room && rest >= Minutes(y) * g - lossy * g ==>
      credit + rest >= Minutes(x + y) * g - ((if x % MINUTE != 0 then 1 else 0) + lossy) * g
  {
    MulMonotone(0, Minutes(x), g);
    PiecesOfTime(g, x, y, rest, lossy);
  }

  lemma OthersAccrue(l: Ledger, ops: seq<(Op, int)>, now: int)
    requires Valid(l) && ValidOps(ops) && ops != [] && 0 <= Growth(l)
    requires SteadyOp(l, ops[0].0, ops[0].1) && !Cuts(l, ops[0].0, ops[0].1)
    requires Accrues(After(l, ops[0]), ops[1..], now)
    ensures Accrues(l, ops, now)
  {
    OthersCreditNothing(l, ops[0].0, ops[0].1);
    GrowthKept(l, ops[0].0, ops[0].1);
    assert Earned(l, ops, now) == Earned(After(l, ops[0]), ops[1..], now);
  }

  /** Over every run with growth g >= 0: what is credited is at least nothing and at most g for each whole
      minute of the credited ticks, and, as long as the cap does not interfere, at most g less for each cut
      off the minute. */
  lemma {:induction false} EarnedIsCreditedTime(l: Ledger, ops: seq<(Op, int)>, now: int)
    requires Valid(l) && ValidOps(ops) && 0 <= Growth(l) && Steady(l, ops, now)
    ensures Accrues(l, ops, now)
    decreases |ops|
  {
    if ops == [] {
      NothingDoneAccrues(l, now);
    } else {
      GrowthKept(l, ops[0].0, ops[0].1);
      EarnedIsCreditedTime(After(l, ops[0]), ops[1..], now);
      if Cuts(l, ops[0].0, ops[0].1) {
        CutAccrues(l, ops, now);
      } else {
        OthersAccrue(l, ops, now);
      }
    }
  }

  /** The credited ticks are exactly the open ones by the effective times, and the late ones: closed time
      counts only from an effective closing to the last write before it was processed. */
  lemma {:induction false} CreditedIsOpenOrLate(l: Ledger, ops: seq<(Op, int)>, since: int, now: int)
    requires Valid(l) && ValidOps(ops) && 0 <= Growth(l) && Steady(l, ops, now)
    ensures CreditedTicks(l, ops, now) + (if l.open then l.utime - since else 0) ==
            OpenTicks(l, ops, since, now) + LateTicks(l, ops)
    decreases |ops|
  {
    if ops != [] {
      var op, at, n := ops[0].0, ops[0].1, After(l, ops[0]);
      GrowthKept(l, op, at);
      if Cuts(l, op, at) {
        CutCredits(l, op, at);
      } else {
        OthersCreditNothing(l, op, at);
      }
      CreditedIsOpenOrLate(n, ops[1..], if l.open == n.open then since else n.utime, now);
      OnlyClosingMovesBack(l, op, at);
    }
  }

  /** The only operation that closes is the change of the feature, and any other is not before the row. */
  lemma OnlyClosingMovesBack(l: Ledger, op: Op, at: int)
    requires SteadyOp(l, op, at)
    ensures Apply(l, op, at).open != l.open ==> op.SetFeature?
    ensures l.open && Apply(l, op, at).open && !op.SetFeature? ==> l.utime <= at
    ensures l.open && Apply(l, op, at).open && op.SetFeature? ==> Apply(l, op, at) == l
    ensures l.open && !Apply(l, op, at).open ==> Cuts(l, op, at)
  {
  }

  predicate InOrder(from: int, ops: seq<(Op, int)>)
    decreases |ops|
  {
    ops == [] || (from <= ops[0].1 && InOrder(ops[0].1, ops[1..]))
  }

  /** With times in order nothing is late. */
  lemma {:induction false} InOrderIsNotLate(l: Ledger, ops: seq<(Op, int)>, from: int)
    requires Valid(l) && ValidOps(ops) && l.utime <= from && InOrder(from, ops)
    ensures LateTicks(l, ops) == 0
    decreases |ops|
  {
    if ops != [] {
      TimeStays(l, ops[0].0, ops[0].1);
      InOrderIsNotLate(After(l, ops[0]), ops[1..], ops[0].1);
    }
  }

  lemma TimeStays(l: Ledger, op: Op, at: int)
    requires l.utime <= at
    ensures Apply(l, op, at).utime <= at
  {
  }

  /** The balance shown after any such run is the initial amount plus the logged deltas plus growth: at most
      g for each whole minute of open and late time, at least that less g for each cut off the minute unless
      the cap interfered, and never less than the logged deltas alone. */
  lemma BalanceIsExplained(l: Ledger, ops: seq<(Op, int)>, now: int)
    requires Valid(l) && ValidOps(ops) && 0 <= Growth(l) && Steady(l, ops, now)
    requires AllLoggable(l, ops)
    ensures
      var m := Run(l, ops);
      var base := l.amount + Logged(l, m);
      var grown := Minutes(OpenTicks(l, ops, l.utime, now) + LateTicks(l, ops)) * Growth(l);
      && base <= CurrentAt(m, now) <= base + grown
      && (Uncapped(l, ops, now) ==> CurrentAt(m, now) >= base + grown - LossyCuts(l, ops) * Growth(l))
      && 0 <= Credited(l, ops) <= grown
  {
    EarnedIsCreditedTime(l, ops, now);
    CreditedIsOpenOrLate(l, ops, l.utime, now);
    LedgerConservation(l, ops);
    RunStaysSteady(l, ops, now);
    ReadingIsNotBelow(Run(l, ops), now);
    assert Drift(l, Run(l, ops), Credited(l, ops)) == 0;
  }

  lemma {:induction false} RunStaysSteady(l: Ledger, ops: seq<(Op, int)>, now: int)
    requires Valid(l) && ValidOps(ops) && 0 <= Growth(l) && Steady(l, ops, now)
    ensures Credited(l, ops) >= 0 && Growth(Run(l, ops)) == Growth(l)
    ensures Run(l, ops).open ==> Run(l, ops).utime <= now
    decreases |ops|
  {
    if ops != [] {
      var op, at := ops[0].0, ops[0].1;
      GrowthKept(l, op, at);
      if Cuts(l, op, at) {
        CutCredits(l, op, at);
        MulMonotone(0, Minutes(Elapsed(l, at)), Growth(l));
      } else {
        OthersCreditNothing(l, op, at);
      }
      RunStaysSteady(After(l, ops[0]), ops[1..], now);
    }
  }

  lemma ReadingIsNotBelow(l: Ledger, now: int)
    requires Valid(l) && 0 <= Growth(l) && (l.open ==> l.utime <= now)
    ensures CurrentAt(l, now) >= l.amount
  {
    if l.open { MulMonotone(0, Minutes(now - l.utime), Growth(l)); }
  }
}
