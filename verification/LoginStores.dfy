/** Both stores under the login protocol: what the manager's methods do on either store are steps of it. */
module LoginStores {
  import opened Wrappers
  import opened Text
  import opened StateStore
  import opened StoreRuns
  import opened RedisEntry
  import opened Pkce
  import opened Login
  import opened LoginProtocol

  /** What either store holds for the live states. */
  ghost predicate Models(c: Contents, sys: System) {
    match c
    case InMemory(entries) => Live(entries, sys.now) == sys.live
    case InRedis(prefix, db) => RedisRefines(prefix, Redis(db, sys.now), Abstract(sys.live, sys.now))
  }

  /** Time passes for both. */
  lemma AdvanceModels(c: Contents, sys: System, ticks: nat)
    requires Models(c, sys)
    ensures Models(c, sys.(now := sys.now + ticks, live := Live(sys.live, sys.now + ticks)))
  {
    match c
    case InMemory(entries) => LiveTwice(entries, sys.now, sys.now + ticks);
    case InRedis(prefix, db) => RedisStepRefines(prefix, Redis(db, sys.now), Abstract(sys.live, sys.now), StoreRuns.Advance(ticks));
  }

  /** A state is taken from both alike. */
  lemma {:induction false} TakeModels(c: Contents, sys: System, state: string)
    requires Models(c, sys)
    ensures var (entry, after) := AfterTake(c, state, sys.now);
      && entry == (if state in sys.live then Some(sys.live[state].entry) else None)
      && Models(after, sys.(live := sys.live - {state}))
  {
    hide ReadEntry, EncodeEntry, RedisRefines;
    match c
    case InMemory(entries) => AllLive(sys.live - {state}, sys.now);
    case InRedis(prefix, db) => RedisConsumeRefines(prefix, Redis(db, sys.now), Abstract(sys.live, sys.now), Consume(state));
  }

  /** A value under a free state stands for a new live entry. */
  lemma InsertModels(prefix: string, db: Database, sys: System, state: string, entry: StateEntry, deadline: int)
    requires Models(InRedis(prefix, db), sys) && entry.IsBytes() && entry.codeVerifier != "" && deadline > sys.now
    ensures Models(InRedis(prefix, db[prefix + state := RedisValue(EncodeEntry(entry), deadline)]),
                   sys.(live := sys.live[state := Stored(entry, deadline)]))
  {
    hide EncodeEntry;
    var r, a := Redis(db, sys.now), Abstract(sys.live, sys.now);
    var after, live := db[prefix + state := RedisValue(EncodeEntry(entry), deadline)], sys.live[state := Stored(entry, deadline)];
    forall s ensures HoldsState(after, prefix, a.(live := live), s) {
      assert HoldsState(db, prefix, a, s);
      KeysDiffer(prefix, s, state);
    }
  }

  /** All live entries are live. */
  lemma InsertIsLive(sys: System, state: string, stored: Stored)
    requires AllAlive(sys) && stored.expiresAt > sys.now
    ensures Live(sys.live[state := stored], sys.now) == sys.live[state := stored]
  {
  }

  /** One SET NX of `create_state_entry` does what `Attempt` says, whatever ran before it. */
  method PerformAttempt(store: RedisStateStore, ghost realms: Realms, ghost sys: System, step: Step, ttl: int, now: int,
                        ghost sha256: string -> string) returns (r: Option<CreateResult>)
    requires Setting(realms, sha256) && step.Attempt? && ValidStep(realms, step) && step.realm in realms
    requires now == sys.now && step.deadline == now + TtlSeconds(ttl) * TICKS_PER_SECOND
    requires AllAlive(sys) && Models(InRedis(store.keyPrefix, store.server.db), sys)
    modifies store.server
    ensures TtlSeconds(ttl) <= 0 ==> r == Some(RedisFailed) && store.server.db == old(store.server.db)
    ensures TtlSeconds(ttl) > 0 ==>
      && r == (if HexText(step.draw) in sys.live then None else Some(Created(HexText(step.draw))))
      && Models(InRedis(store.keyPrefix, store.server.db), AttemptStep(realms, sha256, sys, step))
  {
    hide EncodeEntry, HexText, VerifierText, TtlSeconds, AuthorizationUrl, Challenge, ValidRealms, IsSha256, IsBytes;
    var entry := StateEntry(VerifierText(step.bytes), step.realm);
    VerifierAlphabet(step.bytes);
    RealmName(realms, step.realm);
    VerifierNotEmpty(realms, step);
    var value := EncodeEntry(entry);
    ghost var state := HexText(step.draw);
    assert HoldsState(store.server.db, store.keyPrefix, Abstract(sys.live, sys.now), state);
    r := store.Attempt(value, TtlSeconds(ttl), Some(step.draw), now);
    if r == Some(Created(state)) {
      InsertModels(store.keyPrefix, old(store.server.db), sys, state, entry, step.deadline);
      InsertIsLive(sys, state, Stored(entry, step.deadline));
    }
  }

  lemma VerifierNotEmpty(realms: Realms, step: Step)
    requires step.Attempt? && ValidStep(realms, step) && step.realm in realms
    ensures VerifierText(step.bytes) != ""
  {
    hide ValidRealms;
    assert |step.bytes| >= 43;
  }

  /** The attempt of a create that drew a free state. */
  lemma {:induction false} CreateModels(realms: Realms, sha256: string -> string, c: Contents, sys: System, realm: string, ttl: int,
                                        bytes: string, draws: Draws, times: seq<int>) returns (step: Step)
    requires Setting(realms, sha256) && realm in realms && ValidDraws(draws) && |times| == ATTEMPTS
    requires |bytes| == ClampLength(realms[realm].realm.verifierLen) && StateEntry(VerifierText(bytes), realm).IsBytes()
    requires AllAlive(sys) && Models(c, sys)
    requires times[0] == sys.now && (c.InRedis? ==> forall i :: 0 <= i < |times| ==> times[i] == sys.now)
    ensures var (r, after) := AfterCreate(c, StateEntry(VerifierText(bytes), realm), ttl, draws, times);
      && (!r.Created? ==> Models(after, sys))
      && (r.Created? ==>
            && step.Attempt? && ValidStep(realms, step) && step.realm == realm && step.bytes == bytes
            && HexText(step.draw) == r.state && r.state !in sys.live
            && Models(after, AttemptStep(realms, sha256, sys, step)))
  {
    hide Allocate, RedisCreate, EncodeEntry, HexText, VerifierText, AuthorizationUrl, Challenge, IsBytes, TtlSeconds, AuthBytes;
    var entry := StateEntry(VerifierText(bytes), realm);
    var (r, after) := AfterCreate(c, entry, ttl, draws, times);
    var deadline := if c.InMemory? then times[ATTEMPTS - 1] + ttl * TICKS_PER_SECOND
                    else sys.now + TtlSeconds(ttl) * TICKS_PER_SECOND;
    step := Attempt(realm, bytes, "", deadline);
    CreatesAlike(c, sys, entry, ttl, draws, times);
    if r.Created? {
      AllocateIsFree(sys.live.Keys, draws);
      var i :| 0 <= i < |draws| && draws[i].Some? && HexText(draws[i].value) == r.state;
      step := step.(draw := draws[i].value);
      VerifierNotEmpty(realms, step);
      if c.InMemory? {
        assert Live(c.entries, sys.now) == sys.live;
        LiveTwice(after.entries, sys.now, sys.now);
      } else {
        InsertModels(c.prefix, c.db, sys, r.state, entry, deadline);
        InsertIsLive(sys, r.state, Stored(entry, deadline));
      }
    } else if c.InMemory? {
      AllLive(sys.live, sys.now);
    }
  }

  /** Both stores try the drawn states against the live ones. */
  lemma CreatesAlike(c: Contents, sys: System, entry: StateEntry, ttl: int, draws: Draws, times: seq<int>)
    requires ValidDraws(draws) && |times| == ATTEMPTS && entry.IsBytes() && Models(c, sys)
    requires times[0] == sys.now && (c.InRedis? ==> forall i :: 0 <= i < |times| ==> times[i] == sys.now)
    ensures var (r, after) := AfterCreate(c, entry, ttl, draws, times);
      && (r.Created? ==> Allocate(sys.live.Keys, draws) == r)
      && (c.InRedis? && r.Created? ==>
            && TtlSeconds(ttl) > 0
            && after == InRedis(c.prefix, c.db[c.prefix + r.state := RedisValue(EncodeEntry(entry), sys.now + TtlSeconds(ttl) * TICKS_PER_SECOND)]))
      && (c.InRedis? && !r.Created? ==> after == c)
  {
    hide Allocate, EncodeEntry, HexText, IsBytes, TtlSeconds;
    if c.InRedis? {
      if TtlSeconds(ttl) > 0 {
        RedisAllocates(c.prefix, Redis(c.db, sys.now), Abstract(sys.live, sys.now), EncodeEntry(entry), TtlSeconds(ttl), draws, times);
      }
    }
  }

  /** `start_login` on either store does what the `Attempt` that succeeds says, and otherwise nothing. */
  method PerformStart(manager: MultiRealmManager, ghost sys: System, realm: string, ttl: int, bytes: Option<string>, draws: Draws,
                      times: seq<int>, sha256: string -> string) returns (r: Result<AuthStart, string>, ghost step: Step)
    requires Setting(manager.realms, sha256) && Inv(manager.realms, sha256, sys) && ValidDraws(draws) && |times| == ATTEMPTS
    requires realm in manager.realms && bytes.Some? ==> |bytes.value| == ClampLength(manager.realms[realm].realm.verifierLen)
    requires Models(manager.store.Holds(), sys) && times[0] == sys.now
    requires manager.store.OnRedis? ==> forall i :: 0 <= i < |times| ==> times[i] == sys.now
    modifies manager.store.Objects()
    ensures r.Err? ==> Models(manager.store.Holds(), sys)
    ensures r.Ok? ==>
      && step.Attempt? && ValidStep(manager.realms, step) && step.realm == realm && realm in manager.realms
      && var next := AttemptStep(manager.realms, sha256, sys, step);
      && Models(manager.store.Holds(), next)
      && |next.started| == |sys.started| + 1
      && next.started[|sys.started|].url == r.value.url && next.started[|sys.started|].state == r.value.state
  {
    hide Challenge, AuthorizationUrl, VerifierText, IsBytes, AfterCreate, Models, AuthBytes, HexText;
    step := Step.Advance(0);
    ghost var before := manager.store.Holds();
    r := manager.StartLogin(realm, ttl, bytes, draws, times, sha256);
    if realm in manager.realms && bytes.Some? {
      RealmName(manager.realms, realm);
      step := CreateModels(manager.realms, sha256, before, sys, realm, ttl, bytes.value, draws, times);
    }
  }

  lemma SameLive(c: Contents, a: System, b: System)
    requires Models(c, a) && a.live == b.live && a.now == b.now
    ensures Models(c, b)
  {
  }

  lemma NotTaken(sys: System, state: string)
    ensures state !in sys.live ==> sys.live - {state} == sys.live
  {
  }

  /** What is stored is bytes, as configured names are. */
  lemma EntriesAreBytes(realms: Realms, sha256: string -> string, sys: System)
    requires Setting(realms, sha256) && Inv(realms, sha256, sys)
    ensures forall s :: s in sys.live ==> sys.live[s].entry.IsBytes()
  {
    hide AuthorizationUrl, FlightOk, SentOk, Distinct, IsBytes;
    forall s | s in sys.live ensures sys.live[s].entry.IsBytes() {
      assert EntryOk(sys, s) && StartedOk(realms, sha256, sys.started[sys.owner[s]]);
    }
  }

  lemma RealmName(realms: Realms, realm: string)
    requires ValidRealms(realms) && realm in realms
    ensures realm != "" && IsBytes(realm)
  {
  }

  /** `complete_login` on either store does what `Callback` says and then, when a state was consumed,
      what `Send` says. */
  method PerformCallback(manager: MultiRealmManager, ghost sys: System, code: string, state: string, now: int,
                         ghost sha256: string -> string) returns (r: CallbackStep)
    requires Setting(manager.realms, sha256) && Inv(manager.realms, sha256, sys) && IsBytes(code)
    requires Models(manager.store.Holds(), sys) && now == sys.now
    modifies manager.store.Objects()
    ensures var next := CallbackStepOf(sys, code, state);
      && Models(manager.store.Holds(), next)
      && (next.flights == sys.flights ==> r.Failed? && next.errors == sys.errors + [r.error])
      && (next.flights != sys.flights ==>
            && |next.flights| == |sys.flights| + 1 && next.flights[|sys.flights|].entry.IsBytes()
            && r == AfterConsume(manager.realms, next.flights[|sys.flights|].entry, code))
  {
    hide IsBytes, AfterConsume, AfterTake, Models, ValidRealms, IsSha256, Inv;
    TakeModels(manager.store.Holds(), sys, state);
    EntriesAreBytes(manager.realms, sha256, sys);
    r := manager.CompleteLogin(code, state, now);
    NotTaken(sys, state);
    SameLive(manager.store.Holds(), if code == "" || state == "" then sys else sys.(live := sys.live - {state}),
             CallbackStepOf(sys, code, state));
  }
}
