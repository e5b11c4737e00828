/** The one-time state store: drawing state strings, and the two stores (`memory.cpp`, `redis.cpp`). */
module StateStore {
  import opened Wrappers
  import opened Text
  import opened RedisEntry
  import UrlEncode

  /** Clocks count ticks; time-outs are given in seconds. */
  const TICKS_PER_SECOND := 1_000_000_000
  const ATTEMPTS := 8
  const STATE_BYTES := 16

  // ------------------------------------------------------------- state strings

  function HexText(bytes: string): string
    requires IsBytes(bytes)
  {
    if bytes == "" then ""
    else [UrlEncode.HexChar(bytes[0] as int / 16), UrlEncode.HexChar(bytes[0] as int % 16)] + HexText(bytes[1..])
  }

  /** `random_state_32`, on the bytes that were drawn. */
  method RandomState32(bytes: string) returns (s: string)
    requires IsBytes(bytes)
    ensures s == HexText(bytes)
  {
    hide Rest, IsBytes, UrlEncode.HexChar;
    s := "";
    RestStart(bytes);
    for i := 0 to |bytes|
      invariant IsBytes(Rest(bytes, i))
      invariant s + HexText(Rest(bytes, i)) == HexText(bytes)
    {
      RestStep(bytes, i);
      BytesStep(Rest(bytes, i));
      var hi, lo := UrlEncode.HexChar(bytes[i] as int / 16), UrlEncode.HexChar(bytes[i] as int % 16);
      Regroup(s, [hi, lo], HexText(Rest(bytes, i + 1)));
      s := s + [hi];
      s := s + [lo];
    }
    assert s + "" == s;
  }

  /** Different draws give different state strings, of 32 hex digits. */
  lemma {:induction false} HexTextInjective(a: string, b: string)
    requires IsBytes(a) && IsBytes(b) && |a| == |b|
    ensures |HexText(a)| == 2 * |a|
    ensures HexText(a) == HexText(b) ==> a == b
  {
    if a != "" {
      HexTextInjective(a[1..], b[1..]);
      var x, y := HexText(a), HexText(b);
      assert x[2..] == HexText(a[1..]) && y[2..] == HexText(b[1..]);
      if x == y {
        HexCharInjective(a[0] as int / 16, b[0] as int / 16);
        HexCharInjective(a[0] as int % 16, b[0] as int % 16);
        assert a[0] as int == b[0] as int;
        assert a == [a[0]] + a[1..] && b == [b[0]] + b[1..];
      }
    }
  }

  lemma HexCharInjective(a: nat, b: nat)
    requires a < 16 && b < 16
    ensures UrlEncode.HexChar(a) == UrlEncode.HexChar(b) ==> a == b
  {
  }

  /** The outcome of a create; the last three are exceptions. */
  datatype CreateResult = Created(state: string) | Exhausted | DrawFailed | RedisFailed

  /** One draw per attempt; `None` when the random generator fails. */
  type Draws = seq<Option<string>>

  predicate ValidDraws(draws: Draws) {
    |draws| == ATTEMPTS
    && forall i :: 0 <= i < |draws| ==> draws[i].Some? ==> IsBytes(draws[i].value) && |draws[i].value| == STATE_BYTES
  }

  /** The first drawn state that is not taken. */
  function Allocate(taken: set<string>, draws: Draws): CreateResult
    requires forall i :: 0 <= i < |draws| ==> draws[i].Some? ==> IsBytes(draws[i].value)
  {
    if draws == [] then Exhausted
    else if draws[0].None? then DrawFailed
    else if HexText(draws[0].value) in taken then Allocate(taken, draws[1..])
    else Created(HexText(draws[0].value))
  }

  // --------------------------------------------------------------- memory store

  datatype Stored = Stored(entry: StateEntry, expiresAt: int)

  type Entries = map<string, Stored>

  /** The entries that a cleanup at `now` leaves. */
  function Live(entries: Entries, now: int): (r: Entries)
    ensures forall s :: s in r <==> s in entries && entries[s].expiresAt > now
    ensures forall s :: s in r ==> r[s] == entries[s]
  {
    map s | s in entries && entries[s].expiresAt > now :: entries[s]
  }

  function MemoryAfterCreate(entries: Entries, entry: StateEntry, ttl: int, draws: Draws, now: int, later: int): Entries
    requires ValidDraws(draws)
  {
    var live := Live(entries, now);
    match Allocate(live.Keys, draws)
    case Created(state) => live[state := Stored(entry, later + ttl * TICKS_PER_SECOND)]
    case _ => live
  }

  class MemoryStateStore {
    var entries: Entries

    constructor ()
      ensures entries == map[]
    {
      entries := map[];
    }

    method CleanupExpired(now: int)
      modifies this
      ensures entries == Live(old(entries), now)
    {
      var rest := entries.Keys;
      while rest != {}
        invariant rest <= old(entries).Keys
        invariant forall s :: s in entries <==> s in old(entries) && (s in rest || old(entries)[s].expiresAt > now)
        invariant forall s :: s in entries ==> entries[s] == old(entries)[s]
        decreases |rest|
      {
        var s :| s in rest;
        rest := rest - {s};
        if entries[s].expiresAt <= now {
          entries := entries - {s};
        }
      }
    }

    /** `draws` are the random bytes of the attempts, `now` and `later` the clock at the
        cleanup and at the insertion. The whole method runs under the store's lock. */
    method CreateStateEntry(entry: StateEntry, ttl: int, draws: Draws, now: int, later: int) returns (r: CreateResult)
      requires ValidDraws(draws)
      modifies this
      ensures r == Allocate(Live(old(entries), now).Keys, draws)
      ensures entries == MemoryAfterCreate(old(entries), entry, ttl, draws, now, later)
      ensures r.Created? ==> entries == Live(old(entries), now)[r.state := Stored(entry, later + ttl * TICKS_PER_SECOND)]
      ensures !r.Created? ==> entries == Live(old(entries), now)
    {
      CleanupExpired(now);
      for attempt := 0 to ATTEMPTS
        invariant entries == Live(old(entries), now)
        invariant Allocate(entries.Keys, draws[attempt..]) == Allocate(entries.Keys, draws)
      {
        assert draws[attempt..][0] == draws[attempt];
        if draws[attempt].None? {
          return DrawFailed;
        }
        var state := RandomState32(draws[attempt].value);
        if state in entries {
          assert draws[attempt..][1..] == draws[attempt + 1..];
          continue;
        }
        entries := entries[state := Stored(entry, later + ttl * TICKS_PER_SECOND)];
        return Created(state);
      }
      assert draws[ATTEMPTS..] == [];
      return Exhausted;
    }

    method ConsumeStateEntry(state: string, now: int) returns (r: Option<StateEntry>)
      modifies this
      ensures var live := Live(old(entries), now);
        && r == (if state in live then Some(live[state].entry) else None)
        && entries == live - {state}
    {
      CleanupExpired(now);
      if state !in entries {
        assert entries == entries - {state};
        return None;
      }
      r := Some(entries[state].entry);
      entries := entries - {state};
    }
  }

  // ---------------------------------------------------------------- redis store

  datatype RedisValue = RedisValue(text: string, expiresAt: int)

  type Database = map<string, RedisValue>

  datatype Reply = Accepted | Null | Refused

  predicate IsLive(db: Database, key: string, now: int) {
    key in db && db[key].expiresAt > now
  }

  /** The server: `SET key value EX ex NX` and `GETDEL key`, each atomic. */
  class RedisServer {
    var db: Database

    constructor ()
      ensures db == map[]
    {
      db := map[];
    }

    method SetNxEx(key: string, value: string, ex: int, now: int) returns (reply: Reply)
      modifies this
      ensures ex <= 0 ==> reply == Refused && db == old(db)
      ensures ex > 0 && IsLive(old(db), key, now) ==> reply == Null && db == old(db)
      ensures ex > 0 && !IsLive(old(db), key, now) ==>
                reply == Accepted && db == old(db)[key := RedisValue(value, now + ex * TICKS_PER_SECOND)]
    {
      if ex <= 0 {
        return Refused;
      }
      if key in db && db[key].expiresAt > now {
        return Null;
      }
      db := db[key := RedisValue(value, now + ex * TICKS_PER_SECOND)];
      return Accepted;
    }

    method GetDel(key: string, now: int) returns (reply: Option<string>)
      modifies this
      ensures reply == if IsLive(old(db), key, now) then Some(old(db)[key].text) else None
      ensures db == old(db) - {key}
    {
      reply := if key in db && db[key].expiresAt > now then Some(db[key].text) else None;
      db := db - {key};
    }
  }

  /** `static_cast<int>(std::max<std::int64_t>(1, ttl))`. */
  function TtlSeconds(ttl: int): int {
    ((if ttl > 1 then ttl else 1) + 0x8000_0000) % 0x1_0000_0000 - 0x8000_0000
  }

  /** One attempt of a create and the database afterwards; `None` when the state is taken. */
  function RedisAttempt(db: Database, prefix: string, text: string, ex: int, draw: Option<string>, now: int)
    : (r: (Option<CreateResult>, Database))
    requires draw.Some? ==> IsBytes(draw.value)
    ensures r.0.None? ==> r.1 == db
  {
    if draw.None? then (Some(DrawFailed), db)
    else if ex <= 0 then (Some(RedisFailed), db)
    else
      var state := HexText(draw.value);
      if IsLive(db, prefix + state, now) then (None, db)
      else (Some(Created(state)), db[prefix + state := RedisValue(text, now + ex * TICKS_PER_SECOND)])
  }

  /** The attempts of a create, each at its own time, and the database afterwards. */
  function RedisCreate(db: Database, prefix: string, text: string, ex: int, draws: Draws, times: seq<int>)
    : (r: (CreateResult, Database))
    requires |times| == |draws| && forall i :: 0 <= i < |draws| ==> draws[i].Some? ==> IsBytes(draws[i].value)
    decreases draws
  {
    if draws == [] then (Exhausted, db)
    else
      var (r, next) := RedisAttempt(db, prefix, text, ex, draws[0], times[0]);
      if r.Some? then (r.value, next) else RedisCreate(next, prefix, text, ex, draws[1..], times[1..])
  }

  /** The constructor of the source; `Err` stands for its exception. */
  method MakeRedisStore(server: RedisServer, keyPrefix: string) returns (r: Result<RedisStateStore, string>)
    ensures keyPrefix == "" ==> r == Err("key_prefix must not be empty")
    ensures keyPrefix != "" ==> r.Ok? && fresh(r.value) && r.value.server == server && r.value.keyPrefix == keyPrefix
  {
    if keyPrefix == "" {
      return Err("key_prefix must not be empty");
    }
    var store := new RedisStateStore(server, keyPrefix);
    return Ok(store);
  }

  class RedisStateStore {
    const server: RedisServer
    const keyPrefix: string

    constructor (server: RedisServer, keyPrefix: string)
      requires keyPrefix != ""
      ensures this.server == server && this.keyPrefix == keyPrefix
    {
      this.server, this.keyPrefix := server, keyPrefix;
    }

    /** One round of the loop of a create: a draw and a SET NX. */
    method Attempt(value: string, ex: int, draw: Option<string>, now: int) returns (r: Option<CreateResult>)
      requires draw.Some? ==> IsBytes(draw.value)
      modifies server
      ensures (r, server.db) == RedisAttempt(old(server.db), keyPrefix, value, ex, draw, now)
    {
      if draw.None? {
        return Some(DrawFailed);
      }
      var state := RandomState32(draw.value);
      var reply := server.SetNxEx(keyPrefix + state, value, ex, now);
      if reply == Refused {
        return Some(RedisFailed);
      }
      if reply == Null {
        return None;
      }
      return Some(Created(state));
    }

    method CreateStateEntry(entry: StateEntry, ttl: int, draws: Draws, times: seq<int>) returns (r: CreateResult)
      requires ValidDraws(draws) && |times| == ATTEMPTS && entry.IsBytes()
      modifies server
      ensures (r, server.db) == RedisCreate(old(server.db), keyPrefix, EncodeEntry(entry), TtlSeconds(ttl), draws, times)
    {
      hide HexText, EncodeEntry, RedisAttempt;
      var ex := TtlSeconds(ttl);
      var verifier := UrlEncode.UrlEncode(entry.codeVerifier);
      var realm := UrlEncode.UrlEncode(entry.realm);
      var value := Encoded(entry, verifier, realm);
      ghost var start := server.db;
      for attempt := 0 to ATTEMPTS
        invariant server.db == start
        invariant RedisCreate(start, keyPrefix, value, ex, draws[attempt..], times[attempt..])
               == RedisCreate(start, keyPrefix, value, ex, draws, times)
      {
        assert draws[attempt..][0] == draws[attempt] && times[attempt..][0] == times[attempt];
        var result := Attempt(value, ex, draws[attempt], times[attempt]);
        if result.None? {
          assert draws[attempt..][1..] == draws[attempt + 1..] && times[attempt..][1..] == times[attempt + 1..];
          continue;
        }
        return result.value;
      }
      assert draws[ATTEMPTS..] == [];
      return Exhausted;
    }

    method ConsumeStateEntry(state: string, now: int) returns (r: Option<StateEntry>)
      modifies server
      ensures var key := keyPrefix + state;
        && r == (if IsLive(old(server.db), key, now) then Some(ReadEntry(old(server.db)[key].text)) else None)
        && server.db == old(server.db) - {key}
    {
      hide DecodeEntry;
      var raw := server.GetDel(keyPrefix + state, now);
      if raw.None? {
        return None;
      }
      var entry := DecodeStateEntry(raw.value);
      if entry.Some? {
        return entry;
      }
      return Some(StateEntry(raw.value, ""));
    }
  }

  function Encoded(entry: StateEntry, verifier: string, realm: string): (r: string)
    requires entry.IsBytes() && verifier == UrlEncode.Encode(entry.codeVerifier) && realm == UrlEncode.Encode(entry.realm)
    ensures r == EncodeEntry(entry)
  {
    "verifier=" + verifier + "&realm=" + realm
  }

  // -------------------------------------------------------------------- either store

  datatype Contents = InMemory(entries: Entries) | InRedis(prefix: string, db: Database)

  /** A create, on what the store holds; `times` are the clock readings of its attempts. The memory
      store reads the clock at its cleanup and at the insertion. */
  function AfterCreate(c: Contents, entry: StateEntry, ttl: int, draws: Draws, times: seq<int>): (CreateResult, Contents)
    requires ValidDraws(draws) && |times| == ATTEMPTS && entry.IsBytes()
  {
    match c
    case InMemory(entries) =>
      (Allocate(Live(entries, times[0]).Keys, draws),
       InMemory(MemoryAfterCreate(entries, entry, ttl, draws, times[0], times[ATTEMPTS - 1])))
    case InRedis(prefix, db) =>
      var (r, next) := RedisCreate(db, prefix, EncodeEntry(entry), TtlSeconds(ttl), draws, times);
      (r, InRedis(prefix, next))
  }

  function AfterTake(c: Contents, state: string, now: int): (Option<StateEntry>, Contents) {
    match c
    case InMemory(entries) =>
      var live := Live(entries, now);
      (if state in live then Some(live[state].entry) else None, InMemory(live - {state}))
    case InRedis(prefix, db) =>
      var key := prefix + state;
      (if IsLive(db, key, now) then Some(ReadEntry(db[key].text)) else None, InRedis(prefix, db - {key}))
  }

  /** What a manager is a template over. */
  datatype Store = OnMemory(memory: MemoryStateStore) | OnRedis(redis: RedisStateStore)
  {
    function Objects(): set<object> {
      match this
      case OnMemory(memory) => {memory}
      case OnRedis(redis) => {redis.server}
    }

    function Holds(): Contents
      reads Objects()
    {
      match this
      case OnMemory(memory) => InMemory(memory.entries)
      case OnRedis(redis) => InRedis(redis.keyPrefix, redis.server.db)
    }

    method CreateStateEntry(entry: StateEntry, ttl: int, draws: Draws, times: seq<int>) returns (r: CreateResult)
      requires ValidDraws(draws) && |times| == ATTEMPTS && entry.IsBytes()
      modifies Objects()
      ensures (r, Holds()) == AfterCreate(old(Holds()), entry, ttl, draws, times)
    {
      hide Allocate, RedisCreate, EncodeEntry, MemoryAfterCreate;
      match this
      case OnMemory(memory) => r := memory.CreateStateEntry(entry, ttl, draws, times[0], times[ATTEMPTS - 1]);
      case OnRedis(redis) => r := redis.CreateStateEntry(entry, ttl, draws, times);
    }

    method ConsumeStateEntry(state: string, now: int) returns (r: Option<StateEntry>)
      modifies Objects()
      ensures (r, Holds()) == AfterTake(old(Holds()), state, now)
    {
      hide ReadEntry;
      match this
      case OnMemory(memory) => r := memory.ConsumeStateEntry(state, now);
      case OnRedis(redis) => r := redis.ConsumeStateEntry(state, now);
    }
  }

  // ------------------------------------------------------------ which state is allocated

  /** The two digits of each byte, high one first. */
  lemma {:induction false} HexTextAt(bytes: string, i: nat)
    requires IsBytes(bytes) && i < |bytes|
    ensures |HexText(bytes)| == 2 * |bytes|
    ensures HexText(bytes)[2 * i] == UrlEncode.LOWER_HEX[bytes[i] as int / 16]
    ensures HexText(bytes)[2 * i + 1] == UrlEncode.LOWER_HEX[bytes[i] as int % 16]
  {
    hide UrlEncode.HexChar;
    HexTextInjective(bytes, bytes);
    var x := HexText(bytes);
    if i == 0 {
      UrlEncode.HexDigitsAre(bytes[0] as int / 16);
      UrlEncode.HexDigitsAre(bytes[0] as int % 16);
      HexCharAt(bytes[0] as int / 16);
      HexCharAt(bytes[0] as int % 16);
    } else {
      HexTextAt(bytes[1..], i - 1);
      assert x[2..] == HexText(bytes[1..]);
      assert x[2 * i] == x[2..][2 * (i - 1)] && x[2 * i + 1] == x[2..][2 * (i - 1) + 1];
    }
  }

  lemma HexCharAt(d: nat)
    requires d < 16
    ensures UrlEncode.HexChar(d) == UrlEncode.LOWER_HEX[d]
  {
    UrlEncode.HexDigitsAre(d);
  }

  /** There are eight attempts, each with sixteen bytes. */
  lemma DrawsAre(draws: Draws)
    ensures ValidDraws(draws)
       <==> |draws| == 8 && forall i :: 0 <= i < 8 ==> draws[i].Some? ==> IsBytes(draws[i].value) && |draws[i].value| == 16
  {
  }

  /** A draw that gives a taken state. */
  predicate Collides(taken: set<string>, draw: Option<string>) {
    draw.Some? && IsBytes(draw.value) && HexText(draw.value) in taken
  }

  /** The first draw that does not collide decides: its state is created, or its failure is reported; when all collide
      the attempts are exhausted. */
  lemma {:induction false} AllocateExactly(taken: set<string>, draws: Draws, i: nat)
    requires forall j :: 0 <= j < |draws| ==> draws[j].Some? ==> IsBytes(draws[j].value)
    requires i <= |draws| && forall j :: 0 <= j < i ==> Collides(taken, draws[j])
    ensures i == |draws| ==> Allocate(taken, draws) == Exhausted
    ensures i < |draws| && !Collides(taken, draws[i]) ==>
      Allocate(taken, draws) == if draws[i].None? then DrawFailed else Created(HexText(draws[i].value))
  {
    hide HexText;
    if i > 0 {
      assert draws[1..] == draws[1..] && forall j :: 0 <= j < i - 1 ==> draws[1..][j] == draws[j + 1];
      assert Collides(taken, draws[0]);
      AllocateExactly(taken, draws[1..], i - 1);
    }
  }
}
