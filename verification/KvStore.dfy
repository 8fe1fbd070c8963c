/** The versioned key-value store of puzzle backends (src/db/puzzle_backend.rs:533-920). */
module KvStore {
  import opened Common

  datatype Scope = Global | Team(team: int) | Puzzle(puzzle: int) | TeamPuzzle(team: int, puzzle: int)

  datatype Key = Key(game: int, scope: Scope, name: string)

  /** Times in microseconds; time to live in milliseconds. */
  datatype Row<V> = Row(value: V, version: nat, expiresAt: Option<int>)

  datatype Expiry = Preserve | Permanent | Ttl(ms: int)

  /** What the table holds for one key. */
  type Slot<V> = Option<Row<V>>

  /** One mutating statement. An increment carries the value it stores into an empty slot and the sum
      it would store over a live one, if the addition succeeds. */
  datatype Op<V> =
    | Set(value: V, expiry: Expiry)
    | Increment(first: V, sum: Option<V>, expiry: Expiry)
    | Claim(value: V, ttl: Option<int>)
    | CompareAndSet(expected: nat, value: V, expiry: Expiry)
    | Delete

  function TtlDeadline(ttl: Option<int>, now: int): Option<int> {
    match ttl
    case None => None
    case Some(ms) => Some(now + ms * 1000)
  }

  function TtlOf(e: Expiry): Option<int> {
    match e
    case Ttl(ms) => Some(ms)
    case _ => None
  }

  predicate Live<V>(r: Row<V>, now: int) {
    r.expiresAt.None? || r.expiresAt.value > now
  }

  /** `get_kv_entry_conn`. */
  function Read<V>(slot: Slot<V>, now: int): Option<Row<V>> {
    if slot.Some? && Live(slot.value, now) then slot else None
  }

  function NextExpiry<V>(r: Row<V>, e: Expiry, now: int): Option<int> {
    if e.Preserve? then r.expiresAt else TtlDeadline(TtlOf(e), now)
  }

  /** The slot after the statement, and whether it wrote. */
  function Apply<V>(slot: Slot<V>, op: Op<V>, now: int): (Slot<V>, bool) {
    match op
    case Set(v, e) =>
      (match slot
       case None => (Some(Row(v, 1, TtlDeadline(TtlOf(e), now))), true)
       case Some(r) => (Some(Row(v, r.version + 1, NextExpiry(r, e, now))), true))
    case Increment(first, sum, e) =>
      (match slot
       case None => (Some(Row(first, 1, TtlDeadline(TtlOf(e), now))), true)
       case Some(r) =>
         if !Live(r, now) then (Some(Row(first, r.version + 1, TtlDeadline(TtlOf(e), now))), true)
         else if sum.Some? then (Some(Row(sum.value, r.version + 1, NextExpiry(r, e, now))), true)
         else (slot, false))
    case Claim(v, ttl) =>
      (match slot
       case None => (Some(Row(v, 1, TtlDeadline(ttl, now))), true)
       case Some(r) =>
         if !Live(r, now) then (Some(Row(v, r.version + 1, TtlDeadline(ttl, now))), true) else (slot, false))
    case CompareAndSet(expected, v, e) =>
      (match slot
       case None => (slot, false)
       case Some(r) =>
         if r.version == expected && Live(r, now)
         then (Some(Row(v, r.version + 1, NextExpiry(r, e, now))), true)
         else (slot, false))
    case Delete => (None, slot.Some?)
  }

  datatype Mutation<V> = Mutation(applied: bool, entry: Option<Row<V>>)

  class KvTable<V> {
    var rows: map<Key, Row<V>>

    function At(k: Key): Slot<V>
      reads this
    {
      if k in rows then Some(rows[k]) else None
    }

    constructor ()
      ensures rows == map[]
    {
      rows := map[];
    }

    method GetEntry(k: Key, now: int) returns (r: Option<Row<V>>)
      ensures r == Read(At(k), now)
    {
      if k in rows && (rows[k].expiresAt.None? || rows[k].expiresAt.value > now) {
        return Some(rows[k]);
      }
      r := None;
    }

    /** INSERT ... ON CONFLICT DO UPDATE. */
    method SetEntry(k: Key, value: V, expiry: Expiry, now: int) returns (m: Mutation<V>)
      modifies this
      ensures (At(k), m.applied) == Apply(old(At(k)), Set(value, expiry), now)
      ensures rows - {k} == old(rows) - {k} && m.entry == At(k)
    {
      var deadline := match expiry case Ttl(ms) => Some(now + ms * 1000) case _ => None;
      if k in rows {
        var row := rows[k];
        rows := rows[k := Row(value, row.version + 1, if expiry.Preserve? then row.expiresAt else deadline)];
      } else {
        rows := rows[k := Row(value, 1, deadline)];
      }
      m := Mutation(true, Some(rows[k]));
    }

    /** An expired row starts over; a failing addition aborts the statement. */
    method IncrementEntry(k: Key, first: V, sum: Option<V>, expiry: Expiry, now: int) returns (ok: bool)
      modifies this
      ensures (At(k), ok) == Apply(old(At(k)), Increment(first, sum, expiry), now)
      ensures rows - {k} == old(rows) - {k}
    {
      var deadline := match expiry case Ttl(ms) => Some(now + ms * 1000) case _ => None;
      if k !in rows {
        rows := rows[k := Row(first, 1, deadline)];
        return true;
      }
      var row := rows[k];
      if row.expiresAt.Some? && row.expiresAt.value <= now {
        rows := rows[k := Row(first, row.version + 1, deadline)];
        return true;
      }
      if sum.None? {
        return false;
      }
      rows := rows[k := Row(sum.value, row.version + 1, if expiry.Preserve? then row.expiresAt else deadline)];
      ok := true;
    }

    /** `set_kv_if_absent_conn`; when refused, the entry is what a read finds at `later`. */
    method SetIfAbsent(k: Key, value: V, ttl: Option<int>, now: int, later: int) returns (m: Mutation<V>)
      modifies this
      ensures (At(k), m.applied) == Apply(old(At(k)), Claim(value, ttl), now)
      ensures rows - {k} == old(rows) - {k}
      ensures m.entry == if m.applied then At(k) else Read(At(k), later)
    {
      var deadline := match ttl case Some(ms) => Some(now + ms * 1000) case None => None;
      if k !in rows {
        rows := rows[k := Row(value, 1, deadline)];
        return Mutation(true, Some(rows[k]));
      }
      var row := rows[k];
      if row.expiresAt.Some? && row.expiresAt.value <= now {
        rows := rows[k := Row(value, row.version + 1, deadline)];
        return Mutation(true, Some(rows[k]));
      }
      var current := GetEntry(k, later);
      m := Mutation(false, current);
    }

    /** `compare_and_set_kv_conn`. */
    method CompareAndSetEntry(k: Key, expected: nat, value: V, expiry: Expiry, now: int, later: int)
      returns (m: Mutation<V>)
      modifies this
      ensures (At(k), m.applied) == Apply(old(At(k)), CompareAndSet(expected, value, expiry), now)
      ensures rows - {k} == old(rows) - {k}
      ensures m.entry == if m.applied then At(k) else Read(At(k), later)
    {
      if k in rows && rows[k].version == expected && (rows[k].expiresAt.None? || rows[k].expiresAt.value > now) {
        var row := rows[k];
        var expires := match expiry
          case Preserve => row.expiresAt
          case Permanent => None
          case Ttl(ms) => Some(now + ms * 1000);
        rows := rows[k := Row(value, row.version + 1, expires)];
        return Mutation(true, Some(rows[k]));
      }
      var current := GetEntry(k, later);
      m := Mutation(false, current);
    }

    method DeleteEntry(k: Key) returns (deleted: bool)
      modifies this
      ensures (At(k), deleted) == Apply(old(At(k)), Delete, 0)
      ensures rows - {k} == old(rows) - {k}
    {
      deleted := k in rows;
      rows := rows - {k};
    }
  }

  // ----- versions count applied mutations -----

  function Version<V>(slot: Slot<V>): nat {
    match slot case None => 0 case Some(r) => r.version
  }

  datatype Timed<V> = Timed(op: Op<V>, now: int)

  function Run<V>(slot: Slot<V>, ops: seq<Timed<V>>): Slot<V>
    decreases |ops|
  {
    if ops == [] then slot else Run(Apply(slot, ops[0].op, ops[0].now).0, ops[1..])
  }

  /** How many of the statements wrote. */
  function AppliedCount<V>(slot: Slot<V>, ops: seq<Timed<V>>): nat
    decreases |ops|
  {
    if ops == [] then 0
    else
      var (next, applied) := Apply(slot, ops[0].op, ops[0].now);
      (if applied then 1 else 0) + AppliedCount(next, ops[1..])
  }

  predicate NoDelete<V>(ops: seq<Timed<V>>) {
    forall i :: 0 <= i < |ops| ==> !ops[i].op.Delete?
  }

  lemma OneVersionPerWrite<V>(slot: Slot<V>, op: Op<V>, now: int)
    requires !op.Delete?
    ensures
      var (next, applied) := Apply(slot, op, now);
      && Version(next) == Version(slot) + (if applied then 1 else 0)
      && (!applied ==> next == slot)
      && (slot.Some? ==> next.Some?)
  {
  }

  /** On one key without deletes the version grows by exactly the number of applied mutations, also
      through expiry and reclaim; and nothing changes if none applied. */
  lemma {:induction false} VersionCountsWrites<V>(slot: Slot<V>, ops: seq<Timed<V>>)
    requires NoDelete(ops)
    ensures Version(Run(slot, ops)) == Version(slot) + AppliedCount(slot, ops)
    ensures AppliedCount(slot, ops) == 0 ==> Run(slot, ops) == slot
    ensures slot.Some? ==> Run(slot, ops).Some?
    decreases |ops|
  {
    if ops != [] {
      OneVersionPerWrite(slot, ops[0].op, ops[0].now);
      VersionCountsWrites(Apply(slot, ops[0].op, ops[0].now).0, ops[1..]);
    }
  }

  /** The statements after the last delete. */
  function AfterLastDelete<V>(ops: seq<Timed<V>>): seq<Timed<V>> {
    if NoDelete(ops) then ops else AfterLastDelete(ops[1..])
  }

  /** The writes since the last delete; without one, the version at the start and all writes. */
  function SinceDelete<V>(slot: Slot<V>, ops: seq<Timed<V>>): nat {
    if NoDelete(ops) then Version(slot) + AppliedCount(slot, ops)
    else AppliedCount(None, AfterLastDelete(ops))
  }

  lemma {:induction false} RunAfterDelete<V>(slot: Slot<V>, ops: seq<Timed<V>>)
    requires !NoDelete(ops)
    ensures NoDelete(AfterLastDelete(ops)) && Run(slot, ops) == Run(None, AfterLastDelete(ops))
    decreases |ops|
  {
    var next := Apply(slot, ops[0].op, ops[0].now).0;
    if NoDelete(ops[1..]) {
      assert forall i :: 0 < i < |ops| ==> !ops[1..][i - 1].op.Delete? && ops[i] == ops[1..][i - 1];
      assert ops[0].op.Delete?;
    } else {
      RunAfterDelete(next, ops[1..]);
    }
  }

  /** Over all runs the version is the number of writes since the last delete. */
  lemma VersionIsSinceDelete<V>(slot: Slot<V>, ops: seq<Timed<V>>)
    ensures Version(Run(slot, ops)) == SinceDelete(slot, ops)
  {
    if NoDelete(ops) {
      VersionCountsWrites(slot, ops);
    } else {
      RunAfterDelete(slot, ops);
      VersionCountsWrites(None, AfterLastDelete(ops));
    }
  }

  /** A compare-and-set at the version read earlier applies, over all runs, exactly when the writes
      since the last delete have brought the version to the one read and the row is live. Without a
      delete that means nothing was applied since, and it overwrites the very row that was read. */
  lemma CasAppliesIff<V>(slot: Slot<V>, readAt: int, ops: seq<Timed<V>>, value: V, expiry: Expiry, now: int)
    requires Read(slot, readAt).Some?
    ensures
      var version, after := Read(slot, readAt).value.version, Run(slot, ops);
      var applies := Apply(after, CompareAndSet(version, value, expiry), now).1;
      && (applies <==> SinceDelete(slot, ops) == version && Read(after, now).Some?)
      && (NoDelete(ops) ==> (applies <==> AppliedCount(slot, ops) == 0 && Live(slot.value, now)))
      && (NoDelete(ops) && applies ==> after == slot)
  {
    VersionIsSinceDelete(slot, ops);
    if NoDelete(ops) { VersionCountsWrites(slot, ops); }
  }

  /** Hence it applies although the row was written or deleted since it was read, exactly when a delete
      lies between and the new row has climbed to the version read. */
  lemma CasIsFooledIff<V>(slot: Slot<V>, readAt: int, ops: seq<Timed<V>>, value: V, expiry: Expiry, now: int)
    requires Read(slot, readAt).Some?
    ensures
      var version, after := Read(slot, readAt).value.version, Run(slot, ops);
      Apply(after, CompareAndSet(version, value, expiry), now).1 && AppliedCount(slot, ops) > 0 <==>
      !NoDelete(ops) && AppliedCount(None, AfterLastDelete(ops)) == version && Read(after, now).Some?
  {
    CasAppliesIff(slot, readAt, ops, value, expiry, now);
    if !NoDelete(ops) { DeleteCounts(slot, ops); }
  }

  /** A delete of a row that exists is applied, and before it only writes are. */
  lemma {:induction false} DeleteCounts<V>(slot: Slot<V>, ops: seq<Timed<V>>)
    requires slot.Some? && !NoDelete(ops)
    ensures AppliedCount(slot, ops) > 0
    decreases |ops|
  {
    if !ops[0].op.Delete? {
      assert !NoDelete(ops[1..]) by {
        var i :| 0 <= i < |ops| && ops[i].op.Delete?;
        assert ops[1..][i - 1].op.Delete?;
      }
      OneVersionPerWrite(slot, ops[0].op, ops[0].now);
      DeleteCounts(Apply(slot, ops[0].op, ops[0].now).0, ops[1..]);
    }
  }

  function Rewrites<V>(value: V, n: nat): seq<Timed<V>> {
    if n == 0 then [] else [Timed(Set(value, Permanent), 0)] + Rewrites(value, n - 1)
  }

  lemma {:induction false} RewritesClimb<V>(slot: Slot<V>, value: V, n: nat)
    ensures NoDelete(Rewrites(value, n)) && AppliedCount(slot, Rewrites(value, n)) == n
    ensures n > 0 ==> Run(slot, Rewrites(value, n)) == Some(Row(value, Version(slot) + n, None))
    decreases n
  {
    if n > 0 {
      var next := Apply(slot, Set(value, Permanent), 0).0;
      RewritesClimb(next, value, n - 1);
      assert Rewrites(value, n)[1..] == Rewrites(value, n - 1);
      assert n == 1 ==> Run(next, Rewrites(value, n - 1)) == next;
    }
  }

  /** Every row of every version can be replaced so that a compare-and-set does not notice. */
  lemma DeleteBreaksCas<V>(read: Row<V>, other: V, value: V)
    requires read.version > 0
    ensures
      var ops := [Timed(Delete, 0)] + Rewrites(other, read.version);
      && Run(Some(read), ops) == Some(Row(other, read.version, None))
      && Apply(Run(Some(read), ops), CompareAndSet(read.version, value, Permanent), 0).1
  {
    var empty: Slot<V> := None;
    var ops := [Timed(Delete, 0)] + Rewrites(other, read.version);
    assert ops[1..] == Rewrites(other, read.version);
    RewritesClimb(empty, other, read.version);
  }

  // ----- claims and expiry -----

  /** A claim applies exactly when a read at that moment finds nothing. */
  lemma ClaimAppliesIffUnread<V>(slot: Slot<V>, value: V, ttl: Option<int>, now: int)
    ensures Apply(slot, Claim(value, ttl), now).1 <==> Read(slot, now).None?
    ensures ttl.Some? && ttl.value > 0 && Apply(slot, Claim(value, ttl), now).1 ==>
      !Apply(Apply(slot, Claim(value, ttl), now).0, Claim(value, ttl), now).1
  {
  }

  predicate Expired<V>(slot: Slot<V>, now: int) {
    slot.Some? && slot.value.expiresAt.Some? && slot.value.expiresAt.value <= now
  }

  predicate AbsentOrExpired<V>(slot: Slot<V>, now: int) {
    slot.None? || Expired(slot, now)
  }

  /** When a statement writes. */
  lemma WritesIff<V>(slot: Slot<V>, op: Op<V>, now: int)
    ensures Apply(slot, op, now).1 <==>
      match op
      case Set(_, _) => true
      case Increment(_, sum, _) => AbsentOrExpired(slot, now) || sum.Some?
      case Claim(_, _) => AbsentOrExpired(slot, now)
      case CompareAndSet(expected, _, _) => !AbsentOrExpired(slot, now) && slot.value.version == expected
      case Delete => slot.Some?
    ensures !Apply(slot, op, now).1 ==> Apply(slot, op, now).0 == slot
  {
  }

  /** The value that a statement leaves when it writes. */
  function WrittenValue<V>(slot: Slot<V>, op: Op<V>, now: int): Option<V> {
    match op
    case Set(v, _) => Some(v)
    case Increment(first, sum, _) => if AbsentOrExpired(slot, now) then Some(first) else sum
    case Claim(v, _) => Some(v)
    case CompareAndSet(_, v, _) => Some(v)
    case Delete => None
  }

  /** The moment from which on a value written with this time to live is gone, if there is one. */
  predicate UpBy(ms: Option<int>, now: int, later: int) {
    ms.Some? && now + ms.value * 1000 <= later
  }

  /** A value written at `now` is gone at `later`: for ever lasting never; with a time to live when that is up;
      when the expiry is kept, with the old row's, which an increment of nothing or of an expired row drops. */
  predicate GoneBy<V>(slot: Slot<V>, op: Op<V>, now: int, later: int) {
    match op
    case Set(_, Preserve) => Expired(slot, later)
    case Set(_, Permanent) => false
    case Set(_, Ttl(ms)) => UpBy(Some(ms), now, later)
    case Increment(_, _, Preserve) => !AbsentOrExpired(slot, now) && Expired(slot, later)
    case Increment(_, _, Permanent) => false
    case Increment(_, _, Ttl(ms)) => UpBy(Some(ms), now, later)
    case Claim(_, ttl) => UpBy(ttl, now, later)
    case CompareAndSet(_, _, Preserve) => Expired(slot, later)
    case CompareAndSet(_, _, Permanent) => false
    case CompareAndSet(_, _, Ttl(ms)) => UpBy(Some(ms), now, later)
    case Delete => true
  }

  /** What every writing statement leaves to be read, and until when. */
  lemma ReadUntil<V>(slot: Slot<V>, op: Op<V>, now: int, later: int)
    requires Apply(slot, op, now).1
    ensures
      var read := Read(Apply(slot, op, now).0, later);
      && (read.None? <==> GoneBy(slot, op, now, later))
      && (read.Some? ==> Some(read.value.value) == WrittenValue(slot, op, now))
  {
    match op
    case Set(_, e) =>
    case Increment(_, _, e) =>
    case Claim(_, ttl) =>
    case CompareAndSet(_, _, e) =>
    case Delete =>
  }

  /** Reading back what `Set` wrote, at the same moment: always when permanent, with a time to live
      exactly if it is positive, and with Preserve exactly if the key was absent or live. */
  lemma ReadAfterSet<V>(slot: Slot<V>, value: V, expiry: Expiry, now: int)
    ensures
      var after := Apply(slot, Set(value, expiry), now).0;
      Read(after, now) == after <==>
        (match expiry
         case Permanent => true
         case Ttl(ms) => ms > 0
         case Preserve => slot.None? || Live(slot.value, now))
  {
  }

  /** Statements that leave the expiry alone, and claims that are refused. */
  predicate KeepsExpiry<V>(slot: Slot<V>, ops: seq<Timed<V>>)
    decreases |ops|
  {
    ops == [] ||
    (var t := ops[0];
     && (match t.op
         case Set(_, e) => e.Preserve?
         case Increment(_, _, e) => e.Preserve?
         case CompareAndSet(_, _, e) => e.Preserve?
         case Claim(_, _) => !Apply(slot, t.op, t.now).1
         case Delete => false)
     && KeepsExpiry(Apply(slot, t.op, t.now).0, ops[1..]))
  }

  lemma {:induction false} ExpiryKept<V>(slot: Slot<V>, ops: seq<Timed<V>>)
    requires slot.Some? && KeepsExpiry(slot, ops)
    ensures Run(slot, ops).Some?
    ensures Run(slot, ops).value.expiresAt == slot.value.expiresAt || Run(slot, ops).value.expiresAt.None?
    decreases |ops|
  {
    if ops != [] {
      ExpiryKept(Apply(slot, ops[0].op, ops[0].now).0, ops[1..]);
    }
  }

  /** Two applied claims with nothing but refused claims and expiry-preserving writes between them
      are separated by the first one's time to live; after a claim without one there is no second. */
  lemma ClaimsAreSeparated<V>(slot: Slot<V>, claimed: V, ttl: Option<int>, at: int,
                              ops: seq<Timed<V>>, second: V, ttl2: Option<int>, now: int)
    requires Apply(slot, Claim(claimed, ttl), at).1
    requires KeepsExpiry(Apply(slot, Claim(claimed, ttl), at).0, ops)
    requires Apply(Run(Apply(slot, Claim(claimed, ttl), at).0, ops), Claim(second, ttl2), now).1
    ensures ttl.Some? && at + ttl.value * 1000 <= now
  {
    ExpiryKept(Apply(slot, Claim(claimed, ttl), at).0, ops);
  }

  // ----- concurrent read-modify-CAS loops -----

  /** Clients that read, compute a function of the value read, and compare-and-set, with any retries and
      interleavings, among other writers that store values or add to the one that is there. */
  datatype ClientEvent<!V> =
    | ReadBy(client: nat, now: int)
    | CasBy(client: nat, expiry: Expiry, now: int)
    | StoreBy(op: Op<V>, now: int)
    | AddBy(start: V, add: V -> Option<V>, expiry: Expiry, now: int)

  /** An applied write: a client's update, a value stored whatever was there, or an addition. */
  datatype Write<!V> = Updated(client: nat) | Stored(value: V) | Added(add: V -> Option<V>)

  /** The slot, what each client last read, and the writes that were applied, in order. */
  datatype Loops<!V> = Loops(slot: Slot<V>, seen: map<nat, Row<V>>, applied: seq<Write<V>>)

  /** Statements that store their own value: all but additions and deletes. */
  predicate IsStore<V>(op: Op<V>) {
    op.Set? || op.Claim? || op.CompareAndSet?
  }

  function Wrote<V(!new)>(s: Loops<V>, result: (Slot<V>, bool), write: Write<V>): Loops<V> {
    if result.1 then s.(slot := result.0, applied := s.applied + [write]) else s
  }

  function LoopStep<V(!new)>(update: (nat, V) -> V, s: Loops<V>, e: ClientEvent<V>): Loops<V> {
    match e
    case ReadBy(c, now) =>
      (match Read(s.slot, now)
       case None => s.(seen := s.seen - {c})
       case Some(r) => s.(seen := s.seen[c := r]))
    case CasBy(c, expiry, now) =>
      if c !in s.seen then s
      else
        var op := CompareAndSet(s.seen[c].version, update(c, s.seen[c].value), expiry);
        Wrote(s, Apply(s.slot, op, now), Updated(c))
    case StoreBy(op, now) =>
      if IsStore(op) then Wrote(s, Apply(s.slot, op, now), Stored(op.value)) else s
    case AddBy(start, add, expiry, now) =>
      (match Read(s.slot, now)
       case None => Wrote(s, Apply(s.slot, Increment(start, None, expiry), now), Stored(start))
       case Some(r) => Wrote(s, Apply(s.slot, Increment(start, add(r.value), expiry), now), Added(add)))
  }

  function RunLoops<V(!new)>(update: (nat, V) -> V, s: Loops<V>, events: seq<ClientEvent<V>>): Loops<V> {
    if events == [] then s
    else LoopStep(update, RunLoops(update, s, events[..|events| - 1]), events[|events| - 1])
  }

  function Effect<V(!new)>(update: (nat, V) -> V, value: V, write: Write<V>): V {
    match write
    case Updated(c) => update(c, value)
    case Stored(v) => v
    case Added(add) => if add(value).Some? then add(value).value else value
  }

  /** The writes one after another, with nothing in between. */
  function Sequential<V(!new)>(update: (nat, V) -> V, initial: V, writes: seq<Write<V>>): V {
    if writes == [] then initial
    else Effect(update, Sequential(update, initial, writes[..|writes| - 1]), writes[|writes| - 1])
  }

  ghost predicate LoopInvariant<V(!new)>(update: (nat, V) -> V, start: Row<V>, s: Loops<V>) {
    && s.slot.Some?
    && s.slot.value.version == start.version + |s.applied|
    && s.slot.value.value == Sequential(update, start.value, s.applied)
    && SeenIsPast(s.seen, s.slot.value)
  }

  /** What a client has read is older than the row, or is its value. */
  predicate SeenIsPast<V(!new, ==)>(seen: map<nat, Row<V>>, row: Row<V>) {
    forall c <- seen ::
      seen[c].version <= row.version && (seen[c].version == row.version ==> seen[c].value == row.value)
  }

  lemma WroteKeeps<V(!new)>(update: (nat, V) -> V, start: Row<V>, s: Loops<V>, result: (Slot<V>, bool), write: Write<V>)
    requires LoopInvariant(update, start, s)
    requires result.1 ==>
      && result.0.Some? && result.0.value.version == s.slot.value.version + 1
      && result.0.value.value == Effect(update, s.slot.value.value, write)
    ensures LoopInvariant(update, start, Wrote(s, result, write))
  {
    assert (s.applied + [write])[..|s.applied|] == s.applied;
  }

  lemma LoopStepKeeps<V(!new)>(update: (nat, V) -> V, start: Row<V>, s: Loops<V>, e: ClientEvent<V>)
    requires LoopInvariant(update, start, s)
    ensures LoopInvariant(update, start, LoopStep(update, s, e))
  {
    match e
    case ReadBy(c, now) =>
    case CasBy(c, expiry, now) =>
      if c in s.seen {
        var op := CompareAndSet(s.seen[c].version, update(c, s.seen[c].value), expiry);
        WroteKeeps(update, start, s, Apply(s.slot, op, now), Updated(c));
      }
    case StoreBy(op, now) =>
      if IsStore(op) { WroteKeeps(update, start, s, Apply(s.slot, op, now), Stored(op.value)); }
    case AddBy(first, add, expiry, now) =>
      match Read(s.slot, now)
      case None => WroteKeeps(update, start, s, Apply(s.slot, Increment(first, None, expiry), now), Stored(first));
      case Some(r) =>
        WroteKeeps(update, start, s, Apply(s.slot, Increment(first, add(r.value), expiry), now), Added(add));
  }

  /** No update is lost: the stored value is that of all applied writes one after another, each client's
      update applied to the value its predecessor left, and the version counts them. */
  lemma {:induction false} LoopsAreSequential<V(!new)>(update: (nat, V) -> V, start: Row<V>,
                                                       events: seq<ClientEvent<V>>)
    ensures LoopInvariant(update, start, RunLoops(update, Loops(Some(start), map[], []), events))
    decreases |events|
  {
    if events != [] {
      LoopsAreSequential(update, start, events[..|events| - 1]);
      var before := RunLoops(update, Loops(Some(start), map[], []), events[..|events| - 1]);
      LoopStepKeeps(update, start, before, events[|events| - 1]);
    }
  }

  lemma RunLoopsStep<V(!new)>(update: (nat, V) -> V, s: Loops<V>, events: seq<ClientEvent<V>>, e: ClientEvent<V>)
    ensures RunLoops(update, s, events + [e]) == LoopStep(update, RunLoops(update, s, events), e)
  {
    assert (events + [e])[..|events|] == events;
  }

  /** Which statements of a run write: a client's update exactly if the row is still the one it read and live,
      a stored value and an addition exactly as the single statements do. */
  predicate LoopWrites<V(!new, ==)>(s: Loops<V>, e: ClientEvent<V>)
    requires s.slot.Some?
  {
    match e
    case ReadBy(_, _) => false
    case CasBy(c, _, now) => c in s.seen && s.seen[c].version == s.slot.value.version && !Expired(s.slot, now)
    case StoreBy(Set(_, _), _) => true
    case StoreBy(Claim(_, _), now) => Expired(s.slot, now)
    case StoreBy(CompareAndSet(expected, _, _), now) => s.slot.value.version == expected && !Expired(s.slot, now)
    case StoreBy(_, _) => false
    case AddBy(_, add, _, now) => Expired(s.slot, now) || add(s.slot.value.value).Some?
  }

  /** What such a statement makes of the value. */
  function LoopValue<V(!new)>(update: (nat, V) -> V, s: Loops<V>, e: ClientEvent<V>): V
    requires s.slot.Some? && LoopWrites(s, e)
  {
    match e
    case CasBy(c, _, _) => update(c, s.slot.value.value)
    case StoreBy(op, _) => op.value
    case AddBy(start, add, _, now) => if Expired(s.slot, now) then start else add(s.slot.value.value).value
  }

  lemma LoopStepMeaning<V(!new)>(update: (nat, V) -> V, start: Row<V>, s: Loops<V>, e: ClientEvent<V>)
    requires LoopInvariant(update, start, s)
    ensures
      var after := LoopStep(update, s, e);
      && after.slot.Some?
      && (LoopWrites(s, e) ==>
            after.slot.value.value == LoopValue(update, s, e) && |after.applied| == |s.applied| + 1)
      && (!LoopWrites(s, e) ==> after.slot == s.slot && after.applied == s.applied)
      && (!e.ReadBy? ==> after.seen == s.seen)
      && (e.ReadBy? ==> (e.client in after.seen <==> !Expired(s.slot, e.now)))
      && (e.ReadBy? && !Expired(s.slot, e.now) ==> after.seen == s.seen[e.client := s.slot.value])
  {
    match e
    case ReadBy(_, _) =>
    case CasBy(c, expiry, _) =>
    case StoreBy(op, _) =>
    case AddBy(_, _, _, _) =>
  }
}
