/** The bounded compile cache shared by all threads (src/expr/mod.rs:20-97). */
module CompileCache {
  import opened Common
  import opened Gate
  import opened GateCompiler

  const CAPACITY: nat := 4096

  /** Contents of the cache: compiled results by source text, and the texts in insertion order. */
  datatype Cache<V> = Cache(values: map<string, V>, order: seq<string>)

  predicate NoDuplicates(s: seq<string>) {
    forall i, j :: 0 <= i < j < |s| ==> s[i] != s[j]
  }

  /** The queue lists exactly the keys, once each, and there are at most CAPACITY of them. */
  predicate Consistent<V>(c: Cache<V>) {
    && NoDuplicates(c.order)
    && (forall k <- c.order :: k in c.values)
    && (forall k <- c.values :: k in c.order)
    && |c.order| <= CAPACITY
  }

  lemma {:induction false} SizeIsLength(order: seq<string>, keys: set<string>)
    requires NoDuplicates(order)
    requires forall k <- order :: k in keys
    requires forall k <- keys :: k in order
    ensures |keys| == |order|
  {
    if order != [] {
      assert order[0] in keys;
      assert forall k <- order[1..] :: k in keys && k != order[0];
      SizeIsLength(order[1..], keys - {order[0]});
    }
  }

  /** The cache without its oldest key. */
  function WithoutOldest<V>(c: Cache<V>): Cache<V>
    requires c.order != []
  {
    Cache(c.values - {c.order[0]}, c.order[1..])
  }

  /** First writer wins; a new key entering a full cache displaces the oldest one only. */
  function Inserted<V>(c: Cache<V>, key: string, value: V): Cache<V> {
    if key in c.values then c
    else
      var room := if |c.order| < CAPACITY then c else WithoutOldest(c);
      Cache(room.values[key := value], room.order + [key])
  }

  function Found<V>(c: Cache<V>, key: string): Option<V> {
    if key in c.values then Some(c.values[key]) else None
  }

  /** What a lookup finds after an insertion: under the inserted key the value of whoever came first, and
      under any other key what was there before, unless it is the oldest and had to make room. */
  lemma FoundAfterInsert<V>(c: Cache<V>, key: string, value: V, other: string)
    requires Consistent(c)
    ensures Found(Inserted(c, key, value), key) == Some(if Found(c, key).Some? then Found(c, key).value else value)
    ensures other != key ==>
      Found(Inserted(c, key, value), other) ==
        if Found(c, key).None? && |c.order| == CAPACITY && other == c.order[0] then None else Found(c, other)
  {
    if |c.order| == CAPACITY { assert c.order == [c.order[0]] + c.order[1..]; }
  }

  lemma WithoutOldestConsistent<V>(c: Cache<V>)
    requires Consistent(c) && c.order != []
    ensures Consistent(WithoutOldest(c))
  {
    assert c.order == [c.order[0]] + c.order[1..];
  }

  lemma InsertKeepsConsistent<V>(c: Cache<V>, key: string, value: V)
    requires Consistent(c)
    ensures Consistent(Inserted(c, key, value))
    ensures key in Inserted(c, key, value).values
  {
    if |c.order| == CAPACITY { WithoutOldestConsistent(c); }
  }

  class CompileCache<V(==)> {
    var values: map<string, V>
    var insertionOrder: seq<string>

    function Contents(): Cache<V>
      reads this
    {
      Cache(values, insertionOrder)
    }

    constructor ()
      ensures Contents() == Cache(map[], [])
      ensures Consistent(Contents())
    {
      values := map[];
      insertionOrder := [];
    }

    method Get(expression: string) returns (r: Option<V>)
      ensures r == Found(Contents(), expression)
    {
      r := if expression in values then Some(values[expression]) else None;
    }

    /** The branch that gives up on an empty queue is never taken. */
    method Insert(expression: string, compiled: V) returns (r: V)
      requires Consistent(Contents())
      modifies this
      ensures Contents() == Inserted(old(Contents()), expression, compiled)
      ensures Consistent(Contents())
      ensures r == values[expression]
    {
      if expression in values {
        return values[expression];
      }
      ghost var before := Contents();
      while |values| >= CAPACITY
        invariant Consistent(Contents())
        invariant Contents() == before || (|before.order| == CAPACITY && Contents() == WithoutOldest(before))
        decreases |insertionOrder|
      {
        SizeIsLength(insertionOrder, values.Keys);
        if insertionOrder != [] {
          WithoutOldestConsistent(Contents());
          var oldest := insertionOrder[0];
          insertionOrder := insertionOrder[1..];
          values := values - {oldest};
        } else {
          assert false;
          break;
        }
      }
      SizeIsLength(insertionOrder, values.Keys);
      InsertKeepsConsistent(before, expression, compiled);
      insertionOrder := insertionOrder + [expression];
      values := values[expression := compiled];
      r := compiled;
    }
  }

  // ----- many threads -----

  /** A thread in `compile_cached`: the shared lock is taken once for the lookup and, after a miss,
      the exclusive lock once for the insertion; compiling happens in between, without a lock. */
  datatype Thread<V> =
    | Idle
    | Compiling(key: string)
    | Returned(key: string, result: V)

  datatype System<V> = System(cache: Cache<V>, threads: map<nat, Thread<V>>, inserted: seq<string>)

  datatype Event = Lookup(thread: nat, key: string) | Store(thread: nat)

  function Initial<V>(): System<V> {
    System(Cache(map[], []), map[], [])
  }

  /** One locked section. `inserted` records the keys in the order in which they entered the cache. */
  function Step<V>(compile: string -> V, s: System<V>, e: Event): System<V> {
    match e
    case Lookup(t, key) =>
      if t in s.threads && s.threads[t].Compiling? then s
      else
        (match Found(s.cache, key)
         case Some(value) => s.(threads := s.threads[t := Returned(key, value)])
         case None => s.(threads := s.threads[t := Compiling(key)]))
    case Store(t) =>
      if t in s.threads && s.threads[t].Compiling? then
        var key := s.threads[t].key;
        var cache := Inserted(s.cache, key, compile(key));
        (match Found(cache, key)
         case Some(value) =>
           System(cache, s.threads[t := Returned(key, value)],
                  if Found(s.cache, key).Some? then s.inserted else s.inserted + [key])
         case None => s)
      else s
  }

  function Run<V>(compile: string -> V, events: seq<Event>): System<V> {
    if events == [] then Initial()
    else Step(compile, Run(compile, events[..|events| - 1]), events[|events| - 1])
  }

  /** The queue is the newest part of the insertion history: first in, first out. */
  predicate Fifo(order: seq<string>, inserted: seq<string>) {
    && |order| == Min(|inserted|, CAPACITY)
    && order == inserted[|inserted| - |order|..]
  }

  lemma FifoStep(order: seq<string>, inserted: seq<string>, key: string)
    requires Fifo(order, inserted)
    ensures Fifo((if |order| < CAPACITY then order else order[1..]) + [key], inserted + [key])
  {
    var room := if |order| < CAPACITY then order else order[1..];
    assert room == inserted[|inserted| - |room|..];
  }

  predicate Faithful<V(==)>(compile: string -> V, c: Cache<V>) {
    forall k <- c.values :: c.values[k] == compile(k)
  }

  predicate FaithfulThreads<V(==)>(compile: string -> V, threads: map<nat, Thread<V>>) {
    forall t <- threads :: threads[t].Returned? ==> threads[t].result == compile(threads[t].key)
  }

  predicate Invariant<V(==)>(compile: string -> V, s: System<V>) {
    && Consistent(s.cache)
    && Faithful(compile, s.cache)
    && FaithfulThreads(compile, s.threads)
    && Fifo(s.cache.order, s.inserted)
  }

  lemma InsertFaithful<V>(compile: string -> V, c: Cache<V>, key: string)
    requires Faithful(compile, c)
    ensures Faithful(compile, Inserted(c, key, compile(key)))
  {
  }

  lemma ReturnFaithful<V>(compile: string -> V, threads: map<nat, Thread<V>>, t: nat, key: string)
    requires FaithfulThreads(compile, threads)
    ensures FaithfulThreads(compile, threads[t := Returned(key, compile(key))])
    ensures FaithfulThreads(compile, threads[t := Compiling(key)])
  {
  }

  /** A store by a thread that has compiled its key. */
  lemma StoreKeepsInvariant<V>(compile: string -> V, s: System<V>, t: nat)
    requires Invariant(compile, s) && t in s.threads && s.threads[t].Compiling?
    ensures Invariant(compile, Step(compile, s, Store(t)))
  {
    var key := s.threads[t].key;
    InsertKeepsConsistent(s.cache, key, compile(key));
    InsertFaithful(compile, s.cache, key);
    ReturnFaithful(compile, s.threads, t, key);
    FifoStep(s.cache.order, s.inserted, key);
  }

  lemma StepKeepsInvariant<V>(compile: string -> V, s: System<V>, e: Event)
    requires Invariant(compile, s)
    ensures Invariant(compile, Step(compile, s, e))
  {
    match e
    case Lookup(t, key) => ReturnFaithful(compile, s.threads, t, key);
    case Store(t) =>
      if t in s.threads && s.threads[t].Compiling? {
        StoreKeepsInvariant(compile, s, t);
      }
  }

  predicate IsCompiling<V>(s: System<V>, t: nat) {
    t in s.threads && s.threads[t].Compiling?
  }

  /** What one locked section does for its thread, and to no other: a lookup returns a cached result or sends the
      thread to compile; a thread that has compiled leaves its key in the cache and returns the result. */
  lemma StepServes<V>(compile: string -> V, s: System<V>, e: Event)
    requires Invariant(compile, s)
    ensures
      var u, t := Step(compile, s, e), e.thread;
      && u.threads - {t} == s.threads - {t}
      && (e.Lookup? && !IsCompiling(s, t) ==>
            && u.cache == s.cache && t in u.threads
            && u.threads[t] == if e.key in s.cache.values then Returned(e.key, compile(e.key)) else Compiling(e.key))
      && (e.Store? && IsCompiling(s, t) ==>
            var key := s.threads[t].key;
            t in u.threads && u.threads[t] == Returned(key, compile(key)) && key in u.cache.values)
      && (e.Lookup? == IsCompiling(s, t) ==> u == s)
  {
    if e.Store? && IsCompiling(s, e.thread) {
      InsertKeepsConsistent(s.cache, s.threads[e.thread].key, compile(s.threads[e.thread].key));
    }
  }

  lemma RunStep<V>(compile: string -> V, events: seq<Event>, e: Event)
    ensures Run(compile, events + [e]) == Step(compile, Run(compile, events), e)
  {
    assert (events + [e])[..|events|] == events;
  }

  /** In every interleaving of any number of threads: the cache is bounded, its queue lists its
      keys once each in insertion order with the oldest gone first, and every value stored or
      returned to a thread is what compiling its own text gives. */
  lemma {:induction false} EveryRunKeepsInvariant<V>(compile: string -> V, events: seq<Event>)
    ensures Invariant(compile, Run(compile, events))
  {
    if events != [] {
      EveryRunKeepsInvariant(compile, events[..|events| - 1]);
      StepKeepsInvariant(compile, Run(compile, events[..|events| - 1]), events[|events| - 1]);
    }
  }

  /** For the gate cache: whatever a thread gets back is the uncached result for its text. */
  lemma CachedGateIsUncached(events: seq<Event>, t: nat)
    ensures
      var s := Run(text => CompileText(text), events);
      t in s.threads && s.threads[t].Returned? ==> s.threads[t].result == CompileText(s.threads[t].key)
  {
    EveryRunKeepsInvariant(text => CompileText(text), events);
  }
}
