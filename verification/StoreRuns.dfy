/** Both state stores against one specification, over every run: the memory store with its
    lazily cleaned map and the Redis store behave like a map of live entries. */
module StoreRuns {
  import opened Wrappers
  import opened Text
  import opened RedisEntry
  import opened StateStore

  datatype Op =
    | Create(entry: StateEntry, ttl: int, draws: Draws)
    | Consume(state: string)
    | Advance(ticks: nat)
  {
    predicate Drawn() {
      Create? ==> ValidDraws(draws)
    }

    predicate OfBytes() {
      Drawn() && (Create? ==> entry.IsBytes())
    }

    /** What the stores are specified for: a verifier, and a time-out that fits an int, if
        the random generator works at all. */
    predicate Valid() {
      OfBytes() && (Create? && draws[0].Some? ==> entry.codeVerifier != "" && 1 <= ttl <= INT32_MAX)
    }
  }

  datatype Output = Allocated(result: CreateResult) | Taken(entry: Option<StateEntry>) | Waited

  /** What happened, and when. */
  datatype LogItem = LogItem(op: Op, output: Output, time: int)

  predicate AllValid(ops: seq<Op>) {
    forall i :: 0 <= i < |ops| ==> ops[i].Valid()
  }

  predicate AllOfBytes(ops: seq<Op>) {
    forall i :: 0 <= i < |ops| ==> ops[i].OfBytes()
  }

  predicate AllDrawn(ops: seq<Op>) {
    forall i :: 0 <= i < |ops| ==> ops[i].Drawn()
  }

  // ------------------------------------------------------------------ one step

  datatype Abstract = Abstract(live: Entries, now: int)

  /** The specification: only live entries exist, and each can be taken once. */
  function AbstractStep(st: Abstract, op: Op): (Abstract, Output)
    requires op.Drawn()
  {
    match op
    case Create(entry, ttl, draws) =>
      var r := Allocate(st.live.Keys, draws);
      (match r
       case Created(s) => st.(live := st.live[s := Stored(entry, st.now + ttl * TICKS_PER_SECOND)])
       case _ => st, Allocated(r))
    case Consume(s) =>
      (st.(live := st.live - {s}), Taken(if s in st.live then Some(st.live[s].entry) else None))
    case Advance(ticks) =>
      (Abstract(Live(st.live, st.now + ticks), st.now + ticks), Waited)
  }

  datatype Memory = Memory(entries: Entries, now: int)

  /** The methods of `MemoryStateStore`, with the clock fixed within each. */
  function MemoryStep(st: Memory, op: Op): (Memory, Output)
    requires op.Drawn()
  {
    match op
    case Create(entry, ttl, draws) =>
      (st.(entries := MemoryAfterCreate(st.entries, entry, ttl, draws, st.now, st.now)),
       Allocated(Allocate(Live(st.entries, st.now).Keys, draws)))
    case Consume(s) =>
      var live := Live(st.entries, st.now);
      (st.(entries := live - {s}), Taken(if s in live then Some(live[s].entry) else None))
    case Advance(ticks) => (st.(now := st.now + ticks), Waited)
  }

  datatype Redis = Redis(db: Database, now: int)

  function Constant(time: int, n: nat): (r: seq<int>)
    ensures |r| == n && forall i :: 0 <= i < n ==> r[i] == time
  {
    seq(n, _ => time)
  }

  /** The methods of `RedisStateStore`, with the clock fixed within each. */
  function RedisStep(prefix: string, st: Redis, op: Op): (Redis, Output)
    requires op.OfBytes()
  {
    match op
    case Create(entry, ttl, draws) =>
      var (r, db) := RedisCreate(st.db, prefix, EncodeEntry(entry), TtlSeconds(ttl), draws, Constant(st.now, ATTEMPTS));
      (st.(db := db), Allocated(r))
    case Consume(s) =>
      var key := prefix + s;
      (st.(db := st.db - {key}),
       Taken(if IsLive(st.db, key, st.now) then Some(ReadEntry(st.db[key].text)) else None))
    case Advance(ticks) => (st.(now := st.now + ticks), Waited)
  }

  /** The methods do what the steps say. */
  method PerformOnMemory(store: MemoryStateStore, op: Op, now: int) returns (output: Output, later: int)
    requires op.Drawn()
    modifies store
    ensures (Memory(store.entries, later), output) == MemoryStep(Memory(old(store.entries), now), op)
  {
    hide Allocate, Live;
    later := now;
    match op
    case Create(entry, ttl, draws) =>
      var r := store.CreateStateEntry(entry, ttl, draws, now, now);
      output := Allocated(r);
    case Consume(s) =>
      var r := store.ConsumeStateEntry(s, now);
      output := Taken(r);
    case Advance(ticks) =>
      output, later := Waited, now + ticks;
  }

  method PerformOnRedis(store: RedisStateStore, op: Op, now: int) returns (output: Output, later: int)
    requires op.OfBytes()
    modifies store.server
    ensures (Redis(store.server.db, later), output) == RedisStep(store.keyPrefix, Redis(old(store.server.db), now), op)
  {
    hide RedisCreate, EncodeEntry, ReadEntry;
    later := now;
    match op
    case Create(entry, ttl, draws) =>
      var r := store.CreateStateEntry(entry, ttl, draws, Constant(now, ATTEMPTS));
      output := Allocated(r);
    case Consume(s) =>
      var r := store.ConsumeStateEntry(s, now);
      output := Taken(r);
    case Advance(ticks) =>
      output, later := Waited, now + ticks;
  }

  // ---------------------------------------------------------------------- runs

  function AbstractRun(ops: seq<Op>): (Abstract, seq<LogItem>)
    requires AllDrawn(ops)
  {
    if ops == [] then (Abstract(map[], 0), [])
    else
      var (st, log) := AbstractRun(ops[..|ops| - 1]);
      var (next, output) := AbstractStep(st, ops[|ops| - 1]);
      (next, log + [LogItem(ops[|ops| - 1], output, st.now)])
  }

  function MemoryRun(ops: seq<Op>): (Memory, seq<LogItem>)
    requires AllDrawn(ops)
  {
    if ops == [] then (Memory(map[], 0), [])
    else
      var (st, log) := MemoryRun(ops[..|ops| - 1]);
      var (next, output) := MemoryStep(st, ops[|ops| - 1]);
      (next, log + [LogItem(ops[|ops| - 1], output, st.now)])
  }

  function RedisRun(prefix: string, ops: seq<Op>): (Redis, seq<LogItem>)
    requires AllOfBytes(ops)
  {
    if ops == [] then (Redis(map[], 0), [])
    else
      var (st, log) := RedisRun(prefix, ops[..|ops| - 1]);
      var (next, output) := RedisStep(prefix, st, ops[|ops| - 1]);
      (next, log + [LogItem(ops[|ops| - 1], output, st.now)])
  }

  // ---------------------------------------------------------------- refinement

  predicate MemoryRefines(m: Memory, a: Abstract) {
    m.now == a.now && Live(m.entries, m.now) == a.live
  }

  lemma AllLive(entries: Entries, now: int)
    requires forall s :: s in entries ==> entries[s].expiresAt > now
    ensures Live(entries, now) == entries
  {
  }

  lemma LiveTwice(entries: Entries, now: int, later: int)
    requires now <= later
    ensures Live(entries, later) == Live(Live(entries, now), later)
  {
  }

  lemma FailsAtOnce(taken: set<string>, draws: Draws)
    requires ValidDraws(draws) && draws[0].None?
    ensures Allocate(taken, draws) == DrawFailed
  {
  }

  lemma {:induction false} MemoryStepRefines(m: Memory, a: Abstract, op: Op)
    requires op.Valid() && MemoryRefines(m, a)
    ensures MemoryRefines(MemoryStep(m, op).0, AbstractStep(a, op).0)
    ensures MemoryStep(m, op).1 == AbstractStep(a, op).1
  {
    hide Allocate, Live;
    if op.Advance? {
      LiveTwice(m.entries, m.now, m.now + op.ticks);
    } else {
      if op.Create? && op.draws[0].None? {
        FailsAtOnce(Live(m.entries, m.now).Keys, op.draws);
      }
      AllLive(MemoryStep(m, op).0.entries, m.now);
    }
  }

  /** The database value under the state's key stands for the live entry. */
  predicate HoldsState(db: Database, prefix: string, a: Abstract, s: string) {
    && (s in a.live <==> IsLive(db, prefix + s, a.now))
    && (s in a.live ==>
          && a.live[s].entry.IsBytes() && a.live[s].entry.codeVerifier != ""
          && db[prefix + s] == RedisValue(EncodeEntry(a.live[s].entry), a.live[s].expiresAt))
  }

  ghost predicate RedisRefines(prefix: string, r: Redis, a: Abstract) {
    r.now == a.now && forall s :: HoldsState(r.db, prefix, a, s)
  }

  lemma KeysDiffer(prefix: string, s: string, t: string)
    ensures prefix + s == prefix + t ==> s == t
  {
    assert (prefix + s)[|prefix|..] == s && (prefix + t)[|prefix|..] == t;
  }

  lemma TtlInRange(ttl: int)
    requires 1 <= ttl <= INT32_MAX
    ensures TtlSeconds(ttl) == ttl
  {
  }

  /** Trying states with SET NX finds the same one as looking them up in the live map. */
  lemma {:induction false} RedisAllocates(prefix: string, r: Redis, a: Abstract, text: string, ex: int, draws: Draws, times: seq<int>)
    requires RedisRefines(prefix, r, a) && ex > 0 && |times| == |draws|
    requires forall i :: 0 <= i < |times| ==> times[i] == r.now
    requires forall i :: 0 <= i < |draws| ==> draws[i].Some? ==> IsBytes(draws[i].value)
    ensures var (result, db) := RedisCreate(r.db, prefix, text, ex, draws, times);
      && result == Allocate(a.live.Keys, draws)
      && db == match result
         case Created(s) => r.db[prefix + s := RedisValue(text, r.now + ex * TICKS_PER_SECOND)]
         case _ => r.db
    decreases draws
  {
    hide HexText, EncodeEntry;
    if draws != [] && draws[0].Some? {
      assert HoldsState(r.db, prefix, a, HexText(draws[0].value));
      RedisAllocates(prefix, r, a, text, ex, draws[1..], times[1..]);
    }
  }

  lemma RedisCreateRefines(prefix: string, r: Redis, a: Abstract, op: Op)
    requires op.Valid() && op.Create? && RedisRefines(prefix, r, a)
    ensures RedisRefines(prefix, RedisStep(prefix, r, op).0, AbstractStep(a, op).0)
    ensures RedisStep(prefix, r, op).1 == AbstractStep(a, op).1
  {
    hide RedisCreate, Allocate, EncodeEntry;
    if op.draws[0].None? {
      NothingDrawn(prefix, r, a, op);
      return;
    }
    TtlInRange(op.ttl);
    RedisAllocates(prefix, r, a, EncodeEntry(op.entry), op.ttl, op.draws, Constant(r.now, ATTEMPTS));
    var r', a' := RedisStep(prefix, r, op).0, AbstractStep(a, op).0;
    forall s ensures HoldsState(r'.db, prefix, a', s) {
      assert HoldsState(r.db, prefix, a, s);
      if Allocate(a.live.Keys, op.draws).Created? {
        KeysDiffer(prefix, s, Allocate(a.live.Keys, op.draws).state);
      }
    }
  }

  lemma NothingDrawn(prefix: string, r: Redis, a: Abstract, op: Op)
    requires op.Valid() && op.Create? && op.draws[0].None?
    ensures RedisStep(prefix, r, op) == (r, Allocated(DrawFailed)) && AbstractStep(a, op) == (a, Allocated(DrawFailed))
  {
  }

  lemma RedisConsumeRefines(prefix: string, r: Redis, a: Abstract, op: Op)
    requires op.Consume? && RedisRefines(prefix, r, a)
    ensures RedisRefines(prefix, RedisStep(prefix, r, op).0, AbstractStep(a, op).0)
    ensures RedisStep(prefix, r, op).1 == AbstractStep(a, op).1
  {
    hide EncodeEntry, ReadEntry;
    assert HoldsState(r.db, prefix, a, op.state);
    if op.state in a.live {
      EntryRoundTrip(a.live[op.state].entry);
    }
    var r', a' := RedisStep(prefix, r, op).0, AbstractStep(a, op).0;
    forall s ensures HoldsState(r'.db, prefix, a', s) {
      assert HoldsState(r.db, prefix, a, s);
      KeysDiffer(prefix, s, op.state);
    }
  }

  lemma RedisStepRefines(prefix: string, r: Redis, a: Abstract, op: Op)
    requires op.Valid() && RedisRefines(prefix, r, a)
    ensures RedisRefines(prefix, RedisStep(prefix, r, op).0, AbstractStep(a, op).0)
    ensures RedisStep(prefix, r, op).1 == AbstractStep(a, op).1
  {
    match op
    case Create(_, _, _) => RedisCreateRefines(prefix, r, a, op);
    case Consume(_) => RedisConsumeRefines(prefix, r, a, op);
    case Advance(ticks) =>
      var r', a' := RedisStep(prefix, r, op).0, AbstractStep(a, op).0;
      forall s ensures HoldsState(r'.db, prefix, a', s) {
        assert HoldsState(r.db, prefix, a, s);
      }
  }

  lemma {:induction false} RunsRefine(prefix: string, ops: seq<Op>)
    requires AllValid(ops)
    ensures MemoryRefines(MemoryRun(ops).0, AbstractRun(ops).0) && MemoryRun(ops).1 == AbstractRun(ops).1
    ensures RedisRefines(prefix, RedisRun(prefix, ops).0, AbstractRun(ops).0) && RedisRun(prefix, ops).1 == AbstractRun(ops).1
  {
    hide MemoryStep, RedisStep, AbstractStep;
    if ops == [] {
      RunsStart(prefix);
    } else {
      hide MemoryRefines, RedisRefines;
      var front, last := ops[..|ops| - 1], ops[|ops| - 1];
      RunsRefine(prefix, front);
      MemoryStepRefines(MemoryRun(front).0, AbstractRun(front).0, last);
      RedisStepRefines(prefix, RedisRun(prefix, front).0, AbstractRun(front).0, last);
      SameTimes(prefix, front);
    }
  }

  lemma RunsStart(prefix: string)
    ensures MemoryRefines(Memory(map[], 0), Abstract(map[], 0))
    ensures RedisRefines(prefix, Redis(map[], 0), Abstract(map[], 0))
  {
  }

  lemma SameTimes(prefix: string, ops: seq<Op>)
    requires AllValid(ops)
    requires MemoryRefines(MemoryRun(ops).0, AbstractRun(ops).0)
    requires RedisRefines(prefix, RedisRun(prefix, ops).0, AbstractRun(ops).0)
    ensures MemoryRun(ops).0.now == RedisRun(prefix, ops).0.now == AbstractRun(ops).0.now
  {
  }

  /** Two stores, one specification: on every run both give the outputs of the map of
      live entries, hence the same outputs. */
  lemma StoresAgree(prefix: string, ops: seq<Op>)
    requires AllValid(ops)
    ensures MemoryRun(ops).1 == RedisRun(prefix, ops).1 == AbstractRun(ops).1
  {
    RunsRefine(prefix, ops);
  }

  /** The outputs of a run that creates an entry, waits and takes it. */
  function Probe(create: Op, ticks: nat, s: string): seq<Op> {
    [create, Advance(ticks), Consume(s)]
  }

  lemma ProbeParts(create: Op, ticks: nat, s: string)
    ensures var ops := Probe(create, ticks, s);
      && ops[..|ops| - 1] == [create, Advance(ticks)]
      && [create, Advance(ticks)][..1] == [create] && [create][..0] == []
  {
  }

  lemma FirstDraw(draws: Draws)
    requires ValidDraws(draws) && draws[0].Some?
    ensures Allocate({}, draws) == Created(HexText(draws[0].value)) && Live(map[], 0).Keys == {}
  {
  }

  lemma MemoryProbe(create: Op, ticks: nat, s: string)
    requires create.Create? && create.OfBytes() && create.draws[0].Some? && s == HexText(create.draws[0].value)
    ensures AllOfBytes(Probe(create, ticks, s))
    ensures var log := MemoryRun(Probe(create, ticks, s)).1;
      && |log| == 3 && log[0].output == Allocated(Created(s))
      && log[2].output == Taken(if create.ttl * TICKS_PER_SECOND > ticks then Some(create.entry) else None)
  {
    hide HexText, Allocate;
    ProbeParts(create, ticks, s);
    FirstDraw(create.draws);
    var m := MemoryRun([create]).0;
    assert MemoryRun([create]).1 == [LogItem(create, Allocated(Created(s)), 0)];
    assert m == Memory(map[s := Stored(create.entry, create.ttl * TICKS_PER_SECOND)], 0);
    assert MemoryRun([create, Advance(ticks)]).0 == m.(now := ticks);
  }

  lemma RedisProbe(prefix: string, create: Op, ticks: nat, s: string)
    requires create.Create? && create.OfBytes() && create.draws[0].Some? && s == HexText(create.draws[0].value)
    ensures AllOfBytes(Probe(create, ticks, s))
    ensures var log, ex := RedisRun(prefix, Probe(create, ticks, s)).1, TtlSeconds(create.ttl);
      && |log| == 3
      && log[0].output == Allocated(if ex > 0 then Created(s) else RedisFailed)
      && (ex > 0 ==> log[2].output == Taken(if ex * TICKS_PER_SECOND > ticks
                                            then Some(ReadEntry(EncodeEntry(create.entry))) else None))
  {
    hide HexText, EncodeEntry, ReadEntry, TtlSeconds;
    ProbeParts(create, ticks, s);
    var text, ex := EncodeEntry(create.entry), TtlSeconds(create.ttl);
    var r := RedisRun(prefix, [create]).0;
    assert RedisRun(prefix, [create]).1 == [LogItem(create, Allocated(if ex > 0 then Created(s) else RedisFailed), 0)];
    assert ex > 0 ==> r == Redis(map[prefix + s := RedisValue(text, ex * TICKS_PER_SECOND)], 0);
    assert RedisRun(prefix, [create, Advance(ticks)]).0 == r.(now := ticks);
  }

  /** A time-out is handed to Redis unchanged exactly when it is positive and fits an int. */
  lemma TtlKept(ttl: int)
    ensures TtlSeconds(ttl) == ttl <==> 1 <= ttl <= INT32_MAX
    ensures ttl <= 0 ==> TtlSeconds(ttl) == 1
    ensures ttl > INT32_MAX ==> TtlSeconds(ttl) < ttl
  {
  }

  ghost predicate AgreeBehind(prefix: string, create: Op)
    requires create.OfBytes()
  {
    forall later: seq<Op> :: AllValid(later) ==>
      AllOfBytes([create] + later) && MemoryRun([create] + later).1 == RedisRun(prefix, [create] + later).1
  }

  /** The conditions are needed, all of them: the stores agree on every run behind a create if and
      only if its first draw fails, or its entry has a verifier and its time-out is positive and fits an int. */
  lemma AgreeExactly(prefix: string, create: Op)
    requires create.Create? && create.OfBytes()
    ensures AgreeBehind(prefix, create)
       <==> create.draws[0].None? || (create.entry.codeVerifier != "" && 1 <= create.ttl <= INT32_MAX)
  {
    hide MemoryRun, RedisRun, HexText, EncodeEntry, ReadEntry, TtlSeconds, AllValid;
    if create.Valid() {
      forall later: seq<Op> | AllValid(later)
        ensures AllOfBytes([create] + later) && MemoryRun([create] + later).1 == RedisRun(prefix, [create] + later).1
      {
        ValidBehind(create, later);
        StoresAgree(prefix, [create] + later);
      }
    } else {
      var s := HexText(create.draws[0].value);
      var ex := TtlSeconds(create.ttl);
      TtlKept(create.ttl);
      var ticks: nat := if create.ttl > INT32_MAX && ex > 0 then ex * TICKS_PER_SECOND else 0;
      MemoryProbe(create, ticks, s);
      RedisProbe(prefix, create, ticks, s);
      SurvivesExactly(create.entry);
      var later := [Advance(ticks), Consume(s)];
      LaterValid(ticks, s);
      assert [create] + later == Probe(create, ticks, s);
    }
  }

  lemma ValidBehind(create: Op, later: seq<Op>)
    requires create.Valid() && AllValid(later)
    ensures AllValid([create] + later) && AllOfBytes([create] + later)
  {
  }

  lemma LaterValid(ticks: nat, s: string)
    ensures AllValid([Advance(ticks), Consume(s)])
  {
  }

  // ------------------------------------------------------------- one-time use

  /** The entry of the latest create that returned `s` and has not been taken since,
      with its deadline. */
  function OpenCreate(log: seq<LogItem>, s: string): Option<Stored> {
    if log == [] then None
    else
      var last := log[|log| - 1];
      if last.op.Create? && last.output == Allocated(Created(s)) then
        Some(Stored(last.op.entry, last.time + last.op.ttl * TICKS_PER_SECOND))
      else if last.op == Consume(s) && last.output.Taken? && last.output.entry.Some? then None
      else OpenCreate(log[..|log| - 1], s)
  }

  /** The live entries are exactly the open ones. */
  lemma {:induction false} LiveIsOpen(ops: seq<Op>, s: string)
    requires AllDrawn(ops)
    ensures var (st, log) := MemoryRun(ops);
      var live, open := Live(st.entries, st.now), OpenCreate(log, s);
      && (s in live <==> open.Some? && open.value.expiresAt > st.now)
      && (s in live ==> live[s] == open.value)
  {
    hide Allocate;
    if ops != [] {
      var front, last := ops[..|ops| - 1], ops[|ops| - 1];
      LiveIsOpen(front, s);
      var (st, log) := MemoryRun(front);
      assert MemoryRun(ops).1[..|log|] == log;
    }
  }

  /** One-time consumption, exactly: after any run with any time-outs, consuming `s` returns
      the entry of the latest create that returned `s`, if that was not consumed since and its
      deadline has not passed; otherwise it returns nothing. */
  lemma {:induction false} ConsumeIsOneTime(ops: seq<Op>, s: string)
    requires AllDrawn(ops)
    ensures var (st, log) := MemoryRun(ops);
      var open := OpenCreate(log, s);
      MemoryStep(st, Consume(s)).1
      == Taken(if open.Some? && open.value.expiresAt > st.now then Some(open.value.entry) else None)
  {
    hide MemoryRun, OpenCreate;
    LiveIsOpen(ops, s);
  }

  lemma {:induction false} AllocateIsFree(taken: set<string>, draws: Draws)
    requires forall i :: 0 <= i < |draws| ==> draws[i].Some? ==> IsBytes(draws[i].value)
    ensures Allocate(taken, draws).Created? ==> Allocate(taken, draws).state !in taken
    ensures Allocate(taken, draws).Created? ==>
              exists i :: 0 <= i < |draws| && draws[i].Some? && HexText(draws[i].value) == Allocate(taken, draws).state
  {
    hide HexText;
    if draws != [] && draws[0].Some? {
      AllocateIsFree(taken, draws[1..]);
      if HexText(draws[0].value) in taken && Allocate(taken, draws).Created? {
        var i :| 0 <= i < |draws[1..]| && draws[1..][i].Some? && HexText(draws[1..][i].value) == Allocate(taken, draws).state;
        assert draws[i + 1] == draws[1..][i];
      }
    }
  }

  /** A create never overwrites or drops a live entry. */
  lemma CreateKeepsLive(st: Memory, op: Op)
    requires op.Create? && op.Drawn()
    ensures var next := MemoryStep(st, op).0.entries;
      forall s :: s in Live(st.entries, st.now) ==> s in next && next[s] == st.entries[s]
  {
    hide Allocate;
    AllocateIsFree(Live(st.entries, st.now).Keys, op.draws);
  }

  // -------------------------------------------------------------- conservation

  function CountCreated(log: seq<LogItem>): nat {
    if log == [] then 0
    else CountCreated(log[..|log| - 1]) + if log[|log| - 1].output.Allocated? && log[|log| - 1].output.result.Created? then 1 else 0
  }

  function CountTaken(log: seq<LogItem>): nat {
    if log == [] then 0
    else CountTaken(log[..|log| - 1]) + if log[|log| - 1].output.Taken? && log[|log| - 1].output.entry.Some? then 1 else 0
  }

  /** The keys that the cleanup of an operation erases. */
  function Cleaned(st: Memory, op: Op): set<string> {
    if op.Advance? then {} else set s | s in st.entries && st.entries[s].expiresAt <= st.now
  }

  function CountCleaned(ops: seq<Op>): nat
    requires AllDrawn(ops)
  {
    if ops == [] then 0
    else CountCleaned(ops[..|ops| - 1]) + |Cleaned(MemoryRun(ops[..|ops| - 1]).0, ops[|ops| - 1])|
  }

  lemma LiveCount(entries: Entries, now: int)
    ensures |Live(entries, now)| + |set s | s in entries && entries[s].expiresAt <= now| == |entries|
  {
    var dead := set s | s in entries && entries[s].expiresAt <= now;
    assert Live(entries, now).Keys + dead == entries.Keys;
    assert Live(entries, now).Keys !! dead;
    assert |Live(entries, now)| == |Live(entries, now).Keys| && |entries| == |entries.Keys|;
  }

  lemma StepCount(st: Memory, op: Op)
    requires op.Drawn()
    ensures var (next, output) := MemoryStep(st, op);
      |st.entries| + (if output.Allocated? && output.result.Created? then 1 else 0)
      == |next.entries| + |Cleaned(st, op)| + (if output.Taken? && output.entry.Some? then 1 else 0)
  {
    hide Allocate;
    LiveCount(st.entries, st.now);
    var live := Live(st.entries, st.now);
    match op
    case Create(entry, ttl, draws) =>
      AllocateIsFree(live.Keys, draws);
      if Allocate(live.Keys, draws).Created? {
        var s := Allocate(live.Keys, draws).state;
        assert MemoryStep(st, op).0.entries.Keys == live.Keys + {s};
        assert |live.Keys + {s}| == |live.Keys| + 1;
      }
    case Consume(s) =>
      assert (live - {s}).Keys == live.Keys - {s};
      assert |live.Keys - {s}| == |live.Keys| - if s in live then 1 else 0;
    case Advance(_) =>
  }

  /** Conservation: on every run, whatever the time-outs, entries created are entries
      taken, entries cleaned up and entries still in the map. */
  lemma {:induction false} EntriesConserved(ops: seq<Op>)
    requires AllDrawn(ops)
    ensures CountCreated(MemoryRun(ops).1) == CountTaken(MemoryRun(ops).1) + CountCleaned(ops) + |MemoryRun(ops).0.entries|
  {
    hide MemoryStep, Cleaned;
    if ops != [] {
      var front, last := ops[..|ops| - 1], ops[|ops| - 1];
      EntriesConserved(front);
      StepCount(MemoryRun(front).0, last);
      var log := MemoryRun(ops).1;
      assert log[..|log| - 1] == MemoryRun(front).1;
    }
  }
}
