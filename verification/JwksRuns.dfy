/** The key cache over runs: validations interleave at the suspension of the fetch. */
module JwksRuns {
  import opened Wrappers
  import opened Jwt
  import opened JsonTree
  import opened Validator
  import opened TokenMeaning
  import SampleTokens

  /** What the validations did with keys, oldest first. */
  datatype Event =
    | UsedCached(id: nat, keys: seq<Jwk>, at: int)
    | UsedFetched(id: nat, reply: Reply, keys: seq<Jwk>, at: int)
    | FetchFailed(id: nat, reply: Reply, at: int)

  /** `pending` are the validations that wait for the key server. */
  datatype System = System(cache: JwksCache, clock: int, pending: set<nat>, log: seq<Event>)

  /** `Lookup` and `Answer` are what a validation does in front of and behind the suspension. */
  datatype Step = Tick(d: nat) | Lookup(id: nat) | Answer(id: nat, reply: Reply)

  predicate Enabled(s: System, step: Step) {
    match step
    case Tick(d) => true
    case Lookup(id) => id !in s.pending
    case Answer(id, reply) => id in s.pending && Fetched(reply).Done?
  }

  function Outcome(id: nat, reply: Reply, fetched: JwksFetchResult, at: int): Event {
    if fetched.ok then UsedFetched(id, reply, fetched.keys, at) else FetchFailed(id, reply, at)
  }

  function Next(s: System, step: Step, ttl: int): System
    requires Enabled(s, step)
  {
    match step
    case Tick(d) => s.(clock := s.clock + d)
    case Lookup(id) =>
      var keys := FreshKeys(s.cache, s.clock);
      if keys != [] then s.(log := s.log + [UsedCached(id, keys, s.clock)]) else s.(pending := s.pending + {id})
    case Answer(id, reply) =>
      var fetched := Fetched(reply).value;
      System(Refreshed(s.cache, fetched, s.clock, ttl), s.clock, s.pending - {id},
             s.log + [Outcome(id, reply, fetched, s.clock)])
  }

  /** The state behind a run; `None` when a step is not possible. */
  function RunFrom(s: System, steps: seq<Step>, ttl: int): Option<System> {
    if steps == [] then Some(s)
    else
      var before, step := RunFrom(s, steps[..|steps| - 1], ttl), steps[|steps| - 1];
      if before.None? || !Enabled(before.value, step) then None else Some(Next(before.value, step, ttl))
  }

  function Empty(start: int): System {
    System(JwksCache([], 0), start, {}, [])
  }

  /** The state behind a run from an empty cache. */
  function Run(steps: seq<Step>, start: int, ttl: int): Option<System> {
    RunFrom(Empty(start), steps, ttl)
  }

  /** `cached_keys` does what `Lookup` says: keys are used at once, or the key server is asked. */
  method PerformLookup(validator: AccessTokenValidator, ghost s: System, id: nat, ttl: int, now: int) returns (keys: seq<Jwk>)
    requires Enabled(s, Lookup(id)) && validator.cache == s.cache && now == s.clock
    ensures var t := Next(s, Lookup(id), ttl);
      && t.cache == validator.cache
      && (keys != [] ==> t.log == s.log + [UsedCached(id, keys, now)] && t.pending == s.pending)
      && (keys == [] ==> t.log == s.log && t.pending == s.pending + {id})
  {
    keys := validator.CachedKeys(now);
  }

  /** `refresh_jwks` behind its suspension does what `Answer` says. */
  method PerformAnswer(validator: AccessTokenValidator, ghost s: System, id: nat, reply: Reply, now: int)
    returns (fetched: JwksFetchResult)
    requires Enabled(s, Answer(id, reply)) && validator.cache == s.cache && now == s.clock
    modifies validator
    ensures var t := Next(s, Answer(id, reply), validator.cfg.jwksCacheTtl);
      t.cache == validator.cache && t.log == s.log + [Outcome(id, reply, fetched, now)]
  {
    hide ExtractJwks;
    fetched := validator.FinishRefresh(reply, now);
  }

  // ---------------------------------------------------------------------------- freshness

  /** The last successful fetch. */
  function LastWrite(log: seq<Event>): (r: Option<Event>)
    ensures r.Some? ==> r.value.UsedFetched? && r.value in log
  {
    if log == [] then None
    else if log[|log| - 1].UsedFetched? then Some(log[|log| - 1])
    else LastWrite(log[..|log| - 1])
  }

  /** Keys are those of the validation's own good fetch, or the last ones written, read while
      less than the time to live had passed; a failed fetch had no keys to offer. */
  predicate Justified(log: seq<Event>, i: nat, ttl: int)
    requires i < |log|
  {
    match log[i]
    case UsedCached(id, keys, at) =>
      var w := LastWrite(log[..i]);
      w.Some? && keys == w.value.keys && w.value.at <= at < w.value.at + ttl
    case UsedFetched(id, reply, keys, at) =>
      200 <= reply.status < 300 && ExtractJwks(reply.body) == Done(keys) && keys != []
    case FetchFailed(id, reply, at) =>
      200 <= reply.status < 300 ==> ExtractJwks(reply.body) == Done([])
  }

  /** The cache holds exactly what the last successful fetch wrote. */
  predicate CacheIsLastWrite(s: System, ttl: int) {
    match LastWrite(s.log)
    case None => s.cache.keys == []
    case Some(w) => s.cache == JwksCache(w.keys, w.at + ttl) && w.keys != [] && w.at <= s.clock
  }

  ghost predicate Inv(s: System, ttl: int) {
    CacheIsLastWrite(s, ttl) && forall i: nat :: i < |s.log| ==> Justified(s.log, i, ttl)
  }

  lemma {:induction false} JustifiedMore(log: seq<Event>, e: Event, ttl: int)
    requires forall i: nat :: i < |log| ==> Justified(log, i, ttl)
    requires Justified(log + [e], |log|, ttl)
    ensures forall i: nat :: i < |log + [e]| ==> Justified(log + [e], i, ttl)
  {
    hide LastWrite, ExtractJwks;
    forall i: nat | i < |log| ensures Justified(log + [e], i, ttl) {
      assert (log + [e])[..i] == log[..i] && Justified(log, i, ttl);
    }
  }

  lemma NextKeeps(s: System, step: Step, ttl: int)
    requires Inv(s, ttl) && Enabled(s, step)
    ensures Inv(Next(s, step, ttl), ttl)
  {
    hide ExtractJwks;
    var t := Next(s, step, ttl);
    if t.log != s.log {
      var e := t.log[|s.log|];
      assert t.log == s.log + [e] && t.log[..|s.log|] == s.log;
      JustifiedMore(s.log, e, ttl);
    }
  }

  lemma {:induction false} RunKeeps(s: System, steps: seq<Step>, ttl: int)
    requires Inv(s, ttl) && RunFrom(s, steps, ttl).Some?
    ensures Inv(RunFrom(s, steps, ttl).value, ttl)
  {
    hide Inv, Next, Enabled;
    if steps != [] {
      RunKeeps(s, steps[..|steps| - 1], ttl);
      NextKeeps(RunFrom(s, steps[..|steps| - 1], ttl).value, steps[|steps| - 1], ttl);
    }
  }

  /** On every interleaving, every use of keys is justified and the cache holds the last keys written. */
  lemma KeysAreFresh(steps: seq<Step>, start: int, ttl: int)
    requires Run(steps, start, ttl).Some?
    ensures var s := Run(steps, start, ttl).value;
      CacheIsLastWrite(s, ttl) && forall i: nat :: i < |s.log| ==> Justified(s.log, i, ttl)
  {
    hide RunFrom;
    RunKeeps(Empty(start), steps, ttl);
  }

  /** Systems that differ in nothing but their logs run alike and log the same from now on. */
  lemma {:induction false} RunsAlike(s: System, t: System, steps: seq<Step>, ttl: int)
    requires t == s.(log := t.log)
    ensures RunFrom(t, steps, ttl).Some? <==> RunFrom(s, steps, ttl).Some?
    ensures RunFrom(s, steps, ttl).Some? ==> SameBehind(s, RunFrom(s, steps, ttl).value, t, RunFrom(t, steps, ttl).value)
  {
    hide Next, Enabled, SameBehind;
    if steps == [] {
      NothingBehind(s, t);
    } else {
      var front, step := steps[..|steps| - 1], steps[|steps| - 1];
      RunsAlike(s, t, front, ttl);
      if RunFrom(s, front, ttl).Some? {
        StepAlike(s, RunFrom(s, front, ttl).value, t, RunFrom(t, front, ttl).value, step, ttl);
      }
    }
  }

  lemma NothingBehind(s: System, t: System)
    requires t == s.(log := t.log)
    ensures SameBehind(s, s, t, t)
  {
  }

  lemma StepAlike(s: System, s': System, t: System, t': System, step: Step, ttl: int)
    requires SameBehind(s, s', t, t')
    ensures Enabled(t', step) <==> Enabled(s', step)
    ensures Enabled(s', step) ==> SameBehind(s, Next(s', step, ttl), t, Next(t', step, ttl))
  {
    hide FreshKeys, Refreshed, Fetched;
    if Enabled(s', step) {
      var u, v := Next(s', step, ttl), Next(t', step, ttl);
      var e := u.log[|s'.log|..];
      assert u.log == s'.log + e && v.log == t'.log + e && v == u.(log := v.log);
      assert (s'.log + e)[|s.log|..] == s'.log[|s.log|..] + e && (t'.log + e)[|t.log|..] == t'.log[|t.log|..] + e;
    }
  }

  /** `s'` and `t'` have logged the same behind `s` and `t` and differ in nothing but their logs. */
  predicate SameBehind(s: System, s': System, t: System, t': System) {
    && s.log <= s'.log && t.log <= t'.log
    && s'.log[|s.log|..] == t'.log[|t.log|..] && t' == s'.(log := t'.log)
  }

  /** A failed or empty fetch changes nothing for the others: whatever runs behind it uses the
      same keys and fetches as if that validation had just stopped waiting. */
  lemma FailureChangesNothing(s: System, id: nat, reply: Reply, steps: seq<Step>, ttl: int)
    requires Enabled(s, Answer(id, reply)) && !Fetched(reply).value.ok
    ensures var t, u := Next(s, Answer(id, reply), ttl), s.(pending := s.pending - {id});
      && (RunFrom(t, steps, ttl).Some? <==> RunFrom(u, steps, ttl).Some?)
      && (RunFrom(u, steps, ttl).Some? ==> SameBehind(u, RunFrom(u, steps, ttl).value, t, RunFrom(t, steps, ttl).value))
  {
    hide RunFrom, SameBehind, Fetched;
    RunsAlike(s.(pending := s.pending - {id}), Next(s, Answer(id, reply), ttl), steps, ttl);
  }

  // ---------------------------------------------------------------------- fetches over time

  /** The times of the successful fetches. */
  function WriteTimes(log: seq<Event>): seq<int> {
    if log == [] then []
    else
      var last := log[|log| - 1];
      WriteTimes(log[..|log| - 1]) + if last.UsedFetched? then [last.at] else []
  }

  /** A run in which no validation looks for keys while one waits for them. */
  predicate OneAtATime(s: System, steps: seq<Step>, ttl: int) {
    steps == []
    || (&& OneAtATime(s, steps[..|steps| - 1], ttl)
        && RunFrom(s, steps, ttl).Some?
        && (steps[|steps| - 1].Lookup? ==> RunFrom(s, steps[..|steps| - 1], ttl).value.pending == {}))
  }

  predicate Spaced(times: seq<int>, ttl: int) {
    forall i :: 0 <= i < |times| - 1 ==> times[i] + ttl <= times[i + 1]
  }

  ghost predicate AtMostOne(pending: set<nat>) {
    forall a, b :: a in pending && b in pending ==> a == b
  }

  /** At most one validation waits, and only while the last keys written are stale. */
  ghost predicate Ready(s: System, ttl: int) {
    ttl <= 0
    || (&& AtMostOne(s.pending)
        && (s.pending != {} && LastWrite(s.log).Some? ==> LastWrite(s.log).value.at + ttl <= s.clock))
  }

  lemma {:induction false} LastTime(log: seq<Event>)
    ensures LastWrite(log).None? <==> WriteTimes(log) == []
    ensures LastWrite(log).Some? ==> WriteTimes(log)[|WriteTimes(log)| - 1] == LastWrite(log).value.at
  {
    if log != [] && !log[|log| - 1].UsedFetched? {
      LastTime(log[..|log| - 1]);
    }
  }

  lemma {:induction false} SequentialNext(s: System, step: Step, ttl: int)
    requires Inv(s, ttl) && Spaced(WriteTimes(s.log), ttl) && Ready(s, ttl) && Enabled(s, step)
    requires step.Lookup? ==> s.pending == {}
    ensures Spaced(WriteTimes(Next(s, step, ttl).log), ttl) && Ready(Next(s, step, ttl), ttl)
  {
    hide ExtractJwks, Fetched, Justified, WriteTimes, LastWrite, Spaced, FreshKeys;
    LastTime(s.log);
    match step
    case Tick(d) =>
    case Lookup(id) => LookupNext(s, id, ttl);
    case Answer(id, reply) =>
      AnswerLogs(s, id, reply, ttl);
      assert AtMostOne(s.pending) ==> s.pending - {id} == {};
      if LastWrite(s.log).Some? {
        OneMoreTime(WriteTimes(s.log), s.clock, ttl);
      }
      SpacedAlone(s.clock, ttl);
      assert WriteTimes(s.log) + [] == WriteTimes(s.log);
  }

  /** A lookup writes nothing; when it finds no fresh keys, the last ones written are stale. */
  lemma LookupNext(s: System, id: nat, ttl: int)
    requires Inv(s, ttl) && Enabled(s, Lookup(id))
    ensures var t := Next(s, Lookup(id), ttl);
      && WriteTimes(t.log) == WriteTimes(s.log) && LastWrite(t.log) == LastWrite(s.log) && t.clock == s.clock
      && (t.pending == s.pending
          || (t.pending == s.pending + {id} && (LastWrite(s.log).Some? ==> LastWrite(s.log).value.at + ttl <= s.clock)))
  {
  }

  lemma AnswerLogs(s: System, id: nat, reply: Reply, ttl: int)
    requires Enabled(s, Answer(id, reply))
    ensures var t := Next(s, Answer(id, reply), ttl);
      && t.clock == s.clock && t.pending == s.pending - {id}
      && WriteTimes(t.log) == WriteTimes(s.log) + (if Fetched(reply).value.ok then [s.clock] else [])
      && (!Fetched(reply).value.ok ==> LastWrite(t.log) == LastWrite(s.log))
  {
  }

  lemma OneMoreTime(times: seq<int>, at: int, ttl: int)
    requires Spaced(times, ttl) && times != [] && times[|times| - 1] + ttl <= at
    ensures Spaced(times + [at], ttl)
  {
  }

  lemma SpacedAlone(at: int, ttl: int)
    ensures Spaced([at], ttl) && [] + [at] == [at]
  {
  }

  lemma {:induction false} SequentialRun(s: System, steps: seq<Step>, ttl: int)
    requires Inv(s, ttl) && Spaced(WriteTimes(s.log), ttl) && Ready(s, ttl) && OneAtATime(s, steps, ttl)
    ensures RunFrom(s, steps, ttl).Some?
    ensures var t := RunFrom(s, steps, ttl).value; Spaced(WriteTimes(t.log), ttl) && Ready(t, ttl)
  {
    hide Inv, Ready, Spaced, Next, Enabled;
    if steps != [] {
      var front := steps[..|steps| - 1];
      SequentialRun(s, front, ttl);
      RunKeeps(s, front, ttl);
      SequentialNext(RunFrom(s, front, ttl).value, steps[|steps| - 1], ttl);
    }
  }

  lemma {:induction false} SpacedSpan(times: seq<int>, ttl: int)
    requires Spaced(times, ttl) && times != []
    ensures (|times| - 1) * ttl <= times[|times| - 1] - times[0]
  {
    if |times| > 1 {
      SpacedSpan(times[..|times| - 1], ttl);
      assert (|times| - 1) * ttl == (|times| - 2) * ttl + ttl;
    }
  }

  /** When validations run one after another, n successful fetches span n - 1 times to live. */
  lemma {:induction false} FetchesAreSpaced(steps: seq<Step>, start: int, ttl: int)
    requires OneAtATime(Empty(start), steps, ttl) && Run(steps, start, ttl).Some?
    ensures var times := WriteTimes(Run(steps, start, ttl).value.log);
      times != [] ==> (|times| - 1) * ttl <= times[|times| - 1] - times[0]
  {
    hide RunFrom, OneAtATime;
    SequentialRun(Empty(start), steps, ttl);
    var times := WriteTimes(Run(steps, start, ttl).value.log);
    if times != [] {
      SpacedSpan(times, ttl);
    }
  }

  /** From now on, as long as no validation looks for keys while one waits, successful
      fetches keep a time to live between each other and from the ones before. */
  ghost predicate StaysSpaced(s: System, ttl: int) {
    forall steps: seq<Step> :: OneAtATime(s, steps, ttl) ==> SpacedBehind(s, steps, ttl)
  }

  predicate SpacedBehind(s: System, steps: seq<Step>, ttl: int) {
    RunFrom(s, steps, ttl).Some? && Spaced(WriteTimes(RunFrom(s, steps, ttl).value.log), ttl)
  }

  /** Answers are never held back. */
  lemma AnswersRun(s: System, a: nat, b: nat, reply: Reply, ttl: int)
    requires a in s.pending && b in s.pending && a != b && Fetched(reply).Done?
    ensures OneAtATime(s, [Answer(a, reply)], ttl)
    ensures RunFrom(s, [Answer(a, reply)], ttl) == Some(Next(s, Answer(a, reply), ttl))
    ensures OneAtATime(s, [Answer(a, reply), Answer(b, reply)], ttl)
    ensures RunFrom(s, [Answer(a, reply), Answer(b, reply)], ttl)
         == Some(Next(Next(s, Answer(a, reply), ttl), Answer(b, reply), ttl))
  {
    hide Fetched, Next, OneAtATime, RunFrom;
    OneAnswerRuns(s, a, reply, ttl);
    OneLess(s, a, b, reply, ttl);
    OneMoreAnswer(s, [Answer(a, reply)], Next(s, Answer(a, reply), ttl), b, reply, ttl);
    assert [Answer(a, reply)] + [Answer(b, reply)] == [Answer(a, reply), Answer(b, reply)];
  }

  lemma OneLess(s: System, a: nat, b: nat, reply: Reply, ttl: int)
    requires a in s.pending && b in s.pending && a != b && Fetched(reply).Done?
    ensures b in Next(s, Answer(a, reply), ttl).pending
  {
  }

  lemma OneMoreAnswer(s: System, steps: seq<Step>, t: System, id: nat, reply: Reply, ttl: int)
    requires OneAtATime(s, steps, ttl) && RunFrom(s, steps, ttl) == Some(t) && id in t.pending && Fetched(reply).Done?
    ensures OneAtATime(s, steps + [Answer(id, reply)], ttl)
    ensures RunFrom(s, steps + [Answer(id, reply)], ttl) == Some(Next(t, Answer(id, reply), ttl))
  {
  }

  lemma OneAnswerRuns(s: System, a: nat, reply: Reply, ttl: int)
    requires a in s.pending && Fetched(reply).Done?
    ensures OneAtATime(s, [Answer(a, reply)], ttl)
    ensures RunFrom(s, [Answer(a, reply)], ttl) == Some(Next(s, Answer(a, reply), ttl))
  {
    hide Fetched, Next;
    assert RunFrom(s, [], ttl) == Some(s) && OneAtATime(s, [], ttl);
    OneMoreAnswer(s, [], s, a, reply, ttl);
    assert [] + [Answer(a, reply)] == [Answer(a, reply)];
  }

  /** The fetches keep their distance from a state on if and only if at most one validation
      waits there, and only while the last keys written are stale. */
  lemma SpacedExactly(s: System, ttl: int)
    requires Inv(s, ttl) && Spaced(WriteTimes(s.log), ttl)
    ensures StaysSpaced(s, ttl) <==> Ready(s, ttl)
  {
    hide Fetched, RunFrom, OneAtATime, Next, Inv, SampleTokens.SampleReply;
    if Ready(s, ttl) {
      forall steps: seq<Step> | OneAtATime(s, steps, ttl) ensures SpacedBehind(s, steps, ttl) {
        SequentialRun(s, steps, ttl);
      }
    } else {
      SampleTokens.SampleFetched();
      NotSpaced(s, SampleTokens.SampleReply(), ttl);
    }
  }

  lemma NotSpaced(s: System, reply: Reply, ttl: int)
    requires !Ready(s, ttl) && Fetched(reply).Done? && Fetched(reply).value.ok
    ensures !StaysSpaced(s, ttl)
  {
    hide Fetched, SpacedBehind, OneAtATime, LastWrite;
    if AtMostOne(s.pending) {
      var a :| a in s.pending;
      OneTooClose(s, a, reply, ttl);
    } else {
      var a, b :| a in s.pending && b in s.pending && a != b;
      TwoTooClose(s, a, b, reply, ttl);
    }
  }

  /** An answer while the last keys written are fresh. */
  lemma OneTooClose(s: System, a: nat, reply: Reply, ttl: int)
    requires a in s.pending && LastWrite(s.log).Some? && s.clock < LastWrite(s.log).value.at + ttl
    requires Fetched(reply).Done? && Fetched(reply).value.ok
    ensures OneAtATime(s, [Answer(a, reply)], ttl) && !SpacedBehind(s, [Answer(a, reply)], ttl)
  {
    hide Fetched, RunFrom, OneAtATime, Next, Spaced, Refreshed, WriteTimes, LastWrite;
    LastTime(s.log);
    OneAnswerRuns(s, a, reply, ttl);
    AnswerLogs(s, a, reply, ttl);
    TooClose(WriteTimes(s.log), s.clock, ttl);
  }

  /** Two answers at the same time. */
  lemma TwoTooClose(s: System, a: nat, b: nat, reply: Reply, ttl: int)
    requires ttl > 0 && a in s.pending && b in s.pending && a != b && Fetched(reply).Done? && Fetched(reply).value.ok
    ensures OneAtATime(s, [Answer(a, reply), Answer(b, reply)], ttl) && !SpacedBehind(s, [Answer(a, reply), Answer(b, reply)], ttl)
  {
    hide Fetched, RunFrom, OneAtATime, Next, Spaced, Refreshed, WriteTimes;
    AnswersRun(s, a, b, reply, ttl);
    AnswerLogs(s, a, reply, ttl);
    OneLess(s, a, b, reply, ttl);
    AnswerLogs(Next(s, Answer(a, reply), ttl), b, reply, ttl);
    TooClose(WriteTimes(s.log) + [s.clock], s.clock, ttl);
  }

  lemma TooClose(times: seq<int>, at: int, ttl: int)
    requires times != [] && at < times[|times| - 1] + ttl
    ensures !Spaced(times + [at], ttl)
  {
    assert (times + [at])[|times| - 1] + ttl > (times + [at])[|times|];
  }

  /** So two validations that find nothing in an empty cache may fetch at the same time. */
  lemma InterleavedFetchesCoincide(start: int, ttl: int)
    requires ttl > 0
    ensures Run([Lookup(0), Lookup(1)], start, ttl).Some?
    ensures !StaysSpaced(Run([Lookup(0), Lookup(1)], start, ttl).value, ttl)
  {
    hide Fetched, StaysSpaced, SampleTokens.SampleReply;
    assert [Lookup(0), Lookup(1)][..1] == [Lookup(0)] && [Lookup(0)][..0] == [];
    assert RunFrom(Empty(start), [], ttl) == Some(Empty(start));
    assert {} + {0} == {0};
    assert Next(Empty(start), Lookup(0), ttl) == Empty(start).(pending := {0});
    assert RunFrom(Empty(start), [Lookup(0)], ttl) == Some(Empty(start).(pending := {0}));
    var s := Run([Lookup(0), Lookup(1)], start, ttl).value;
    assert 0 in s.pending && 1 in s.pending;
    SampleTokens.SampleFetched();
    NotSpaced(s, SampleTokens.SampleReply(), ttl);
  }

  // ------------------------------------------------------------------- no visible cache

  predicate AnswersAre(steps: seq<Step>, reply: Reply) {
    forall i :: 0 <= i < |steps| && steps[i].Answer? ==> steps[i].reply == reply
  }

  predicate CacheFrom(cache: JwksCache, reply: Reply) {
    cache.keys == [] || (Fetched(reply).Done? && Fetched(reply).value.ok && cache.keys == Fetched(reply).value.keys)
  }

  lemma {:induction false} OnlyTheseKeys(steps: seq<Step>, start: int, reply: Reply, ttl: int)
    requires Run(steps, start, ttl).Some? && AnswersAre(steps, reply)
    ensures CacheFrom(Run(steps, start, ttl).value.cache, reply)
  {
    hide Fetched;
    if steps != [] {
      assert forall i :: 0 <= i < |steps| - 1 ==> steps[..|steps| - 1][i] == steps[i];
      OnlyTheseKeys(steps[..|steps| - 1], start, reply, ttl);
    }
  }

  /** With a key server that always answers the same, no interleaving lets a validation see the
      cache: whatever ran before, the answer is the one of a validator without a cache. */
  lemma {:induction false} CacheIsInvisible(cfg: AuthConfig, steps: seq<Step>, start: int, reply: Reply, text: string, now: int, verify: RsaVerify)
    requires Run(steps, start, cfg.jwksCacheTtl).Some? && AnswersAre(steps, reply)
    ensures var s := Run(steps, start, cfg.jwksCacheTtl).value;
      Verdict(cfg, FreshKeys(s.cache, s.clock), reply, text, now, verify) == Verdict(cfg, [], reply, text, now, verify)
  {
    hide Fetched, ConfigFailure, ParseToken, Checked, Run;
    OnlyTheseKeys(steps, start, reply, cfg.jwksCacheTtl);
  }

  /** Behind a run, the answer on the token's text is the reference validator's at every time. */
  ghost predicate AgreesBehind(cfg: AuthConfig, steps: seq<Step>, start: int, token: Token, jwks: Json, reply: Reply, verify: RsaVerify)
  {
    var s := Run(steps, start, cfg.jwksCacheTtl);
    s.Some? && var cached := FreshKeys(s.value.cache, s.value.clock);
    Setting(cfg, token, jwks, cached, reply) && AnswersAgree(cfg, token, jwks, cached, reply, verify)
  }

  /** The keys behind a run are those of the key set that is served. */
  lemma {:induction false} SettingBehind(cfg: AuthConfig, steps: seq<Step>, start: int, token: Token, jwks: Json, reply: Reply)
    requires Setting(cfg, token, jwks, [], reply)
    requires Run(steps, start, cfg.jwksCacheTtl).Some? && AnswersAre(steps, reply)
    ensures var s := Run(steps, start, cfg.jwksCacheTtl).value; Setting(cfg, token, jwks, FreshKeys(s.cache, s.clock), reply)
  {
    hide Run, Fetched, ConfigFailure, Render, KeySetReadable, JwtTrees.KeysOf;
    OnlyTheseKeys(steps, start, reply, cfg.jwksCacheTtl);
    KeysFetched(reply, jwks);
  }

  /** And on the texts of readable tokens it is the reference validator's, at every time, if and only if
      the times are read right or do not matter. */
  lemma {:induction false} EveryRunIsReference(cfg: AuthConfig, steps: seq<Step>, start: int, token: Token, jwks: Json, reply: Reply,
                                               verify: RsaVerify)
    requires Setting(cfg, token, jwks, [], reply)
    requires Run(steps, start, cfg.jwksCacheTtl).Some? && AnswersAre(steps, reply)
    ensures AgreesBehind(cfg, steps, start, token, jwks, reply, verify)
       <==> (TimesMatter(cfg, token, JwtTrees.KeysOf(jwks), verify) ==> TimesRight(cfg, token.payload))
  {
    hide Run, AnswersAgree, TimesMatter, TimesRight, ConfigFailure, Render, JwtTrees.KeySetReached, JwtTrees.KeysOf, FreshKeys;
    SettingBehind(cfg, steps, start, token, jwks, reply);
    var s := Run(steps, start, cfg.jwksCacheTtl).value;
    ValidatorIsReference(cfg, token, jwks, FreshKeys(s.cache, s.clock), reply, verify);
  }
}
