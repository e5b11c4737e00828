/** The login protocol as steps: any number of logins over all realms are started, called back and
    exchanged in any order. Either store may hold the states, and only the manager writes it. */
module LoginProtocol {
  import opened Wrappers
  import opened Text
  import opened Forms
  import opened StateStore
  import opened RedisEntry
  import opened Pkce
  import opened Login
  import opened Scopes
  import OidcUrls
  import UrlEncode

  /** A started login: what was stored and what the user was sent to. */
  datatype Started = Started(realm: string, verifier: string, state: string, url: string)

  /** A callback that has consumed its state and has not sent its request yet. */
  datatype Flight = Flight(start: nat, code: string, entry: StateEntry)

  /** A token request that was sent; `start` says for which login its state was created. */
  datatype Sent = Sent(start: nat, code: string, realm: string, request: TokenRequest)

  datatype System = System(
    live: Entries,                // the states that can be used
    now: int,
    started: seq<Started>,
    flights: seq<Flight>,
    sent: seq<Sent>,
    errors: seq<string>,
    owner: map<string, nat>,      // history: the login whose create returned the state last
    spent: set<nat>               // history: the logins whose state has been consumed
  )

  /** `Attempt` is one try to store a login under a drawn state: a whole create of the memory store, a
      SET NX of the Redis store, between which other steps may come. */
  datatype Step =
    | Attempt(realm: string, bytes: string, draw: string, deadline: int)
    | Callback(code: string, state: string)
    | Send(flight: nat)
    | Advance(ticks: nat)

  ghost predicate ValidStep(realms: Realms, step: Step) {
    match step
    case Attempt(realm, bytes, draw, _) =>
      && IsBytes(draw) && |draw| == STATE_BYTES
      && (realm in realms ==> |bytes| == ClampLength(realms[realm].realm.verifierLen))
    case Callback(code, _) => IsBytes(code)
    case _ => true
  }

  const INITIAL := System(map[], 0, [], [], [], [], map[], {})

  ghost predicate Setting(realms: Realms, sha256: string -> string) {
    ValidRealms(realms) && IsSha256(sha256)
  }

  // ----------------------------------------------------------------- invariant

  ghost predicate StartedOk(realms: Realms, sha256: string -> string, s: Started)
    requires Setting(realms, sha256)
  {
    && s.realm in realms && 43 <= |s.verifier| <= 128 && IsBytes(s.verifier)
    && AuthBytes(realms[s.realm].realm, s.state, Challenge(s.verifier, sha256))
    && s.url == AuthorizationUrl(realms[s.realm].realm, s.state, Challenge(s.verifier, sha256))
  }

  predicate EntryOk(sys: System, s: string)
    requires s in sys.live
  {
    && s in sys.owner && sys.owner[s] < |sys.started| && sys.owner[s] !in sys.spent
    && sys.started[sys.owner[s]].state == s
    && sys.live[s].entry == StateEntry(sys.started[sys.owner[s]].verifier, sys.started[sys.owner[s]].realm)
  }

  predicate AllAlive(sys: System) {
    forall s :: s in sys.live ==> sys.live[s].expiresAt > sys.now
  }

  predicate FlightOk(sys: System, f: Flight) {
    && f.start < |sys.started| && f.start in sys.spent && IsBytes(f.code) && f.code != ""
    && f.entry == StateEntry(sys.started[f.start].verifier, sys.started[f.start].realm)
  }

  predicate SentOk(realms: Realms, sys: System, x: Sent)
    requires ValidRealms(realms)
  {
    && x.start < |sys.started| && x.start in sys.spent && IsBytes(x.code)
    && x.realm == sys.started[x.start].realm && x.realm in realms
    && TokenBytes(realms[x.realm].token, x.code, sys.started[x.start].verifier)
    && x.request == ExchangeRequest(realms[x.realm].token, x.code, sys.started[x.start].verifier)
  }

  predicate Expected(error: string) {
    error == "missing_code_or_state" || error == "invalid_or_expired_state"
  }

  /** No two consumed states belong to the same login. */
  predicate Distinct(flights: seq<Flight>, sent: seq<Sent>) {
    && (forall i, j :: 0 <= i < j < |flights| ==> flights[i].start != flights[j].start)
    && (forall i, j :: 0 <= i < j < |sent| ==> sent[i].start != sent[j].start)
    && (forall i, j :: 0 <= i < |flights| && 0 <= j < |sent| ==> flights[i].start != sent[j].start)
  }

  ghost predicate Inv(realms: Realms, sha256: string -> string, sys: System)
    requires Setting(realms, sha256)
  {
    && (forall i :: 0 <= i < |sys.started| ==> StartedOk(realms, sha256, sys.started[i]))
    && AllAlive(sys) && (forall s :: s in sys.live ==> EntryOk(sys, s))
    && (forall i :: 0 <= i < |sys.flights| ==> FlightOk(sys, sys.flights[i]))
    && (forall i :: 0 <= i < |sys.sent| ==> SentOk(realms, sys, sys.sent[i]))
    && (forall i :: 0 <= i < |sys.errors| ==> Expected(sys.errors[i]))
    && (forall i :: i in sys.spent ==> i < |sys.started|)
    && Distinct(sys.flights, sys.sent)
  }

  // --------------------------------------------------------------------- steps

  function Without<T>(xs: seq<T>, i: nat): seq<T>
    requires i < |xs|
  {
    xs[..i] + xs[i + 1..]
  }

  ghost function AttemptStep(realms: Realms, sha256: string -> string, sys: System, step: Step): System
    requires Setting(realms, sha256) && step.Attempt? && ValidStep(realms, step) && step.realm in realms
  {
    var state, verifier := HexText(step.draw), VerifierText(step.bytes);
    if state in sys.live then sys
    else
      StartBytes(realms, sha256, step);
      var url := AuthorizationUrl(realms[step.realm].realm, state, Challenge(verifier, sha256));
      sys.(live := Live(sys.live[state := Stored(StateEntry(verifier, step.realm), step.deadline)], sys.now),
           started := sys.started + [Started(step.realm, verifier, state, url)],
           owner := sys.owner[state := |sys.started|])
  }

  lemma StartBytes(realms: Realms, sha256: string -> string, step: Step)
    requires Setting(realms, sha256) && step.Attempt? && ValidStep(realms, step) && step.realm in realms
    ensures AuthBytes(realms[step.realm].realm, HexText(step.draw), Challenge(VerifierText(step.bytes), sha256))
  {
    hide Challenge, IsBytes, HexText;
    HexTextIsBytes(step.draw);
    ChallengeShape(VerifierText(step.bytes), sha256);
  }

  ghost function CallbackStepOf(sys: System, code: string, state: string): System {
    if code == "" || state == "" then sys.(errors := sys.errors + ["missing_code_or_state"])
    else if state !in sys.live then sys.(errors := sys.errors + ["invalid_or_expired_state"])
    else
      var start := if state in sys.owner then sys.owner[state] else 0;
      sys.(live := sys.live - {state}, flights := sys.flights + [Flight(start, code, sys.live[state].entry)],
           spent := sys.spent + {start})
  }

  ghost function SendStep(realms: Realms, sha256: string -> string, sys: System, i: nat): System
    requires Setting(realms, sha256) && Inv(realms, sha256, sys) && i < |sys.flights|
  {
    var f := sys.flights[i];
    assert FlightOk(sys, f) && StartedOk(realms, sha256, sys.started[f.start]);
    match AfterConsume(realms, f.entry, f.code)
    case Failed(_, error) => sys.(flights := Without(sys.flights, i), errors := sys.errors + [error])
    case Exchange(realm, request) =>
      sys.(flights := Without(sys.flights, i), sent := sys.sent + [Sent(f.start, f.code, realm, request)])
  }

  ghost function Next(realms: Realms, sha256: string -> string, sys: System, step: Step): System
    requires Setting(realms, sha256) && Inv(realms, sha256, sys) && ValidStep(realms, step)
  {
    match step
    case Attempt(realm, _, _, _) => if realm in realms then AttemptStep(realms, sha256, sys, step) else sys
    case Callback(code, state) => CallbackStepOf(sys, code, state)
    case Send(i) => if i < |sys.flights| then SendStep(realms, sha256, sys, i) else sys
    case Advance(ticks) => sys.(now := sys.now + ticks, live := Live(sys.live, sys.now + ticks))
  }

  /** A larger list of logins and of spent logins keeps what was known about the old ones. */
  lemma Grows(realms: Realms, a: System, b: System)
    requires ValidRealms(realms) && |a.started| <= |b.started| && b.started[..|a.started|] == a.started && a.spent <= b.spent
    ensures forall f :: FlightOk(a, f) ==> FlightOk(b, f)
    ensures forall x :: SentOk(realms, a, x) ==> SentOk(realms, b, x)
  {
  }

  lemma {:induction false} AttemptKeeps(realms: Realms, sha256: string -> string, sys: System, step: Step)
    requires Setting(realms, sha256) && Inv(realms, sha256, sys)
    requires step.Attempt? && ValidStep(realms, step) && step.realm in realms
    ensures Inv(realms, sha256, AttemptStep(realms, sha256, sys, step))
  {
    hide HexText, AuthBytes, AuthorizationUrl, Challenge, FlightOk, SentOk, VerifierText, IsBytes;
    if HexText(step.draw) !in sys.live {
      var next := AttemptStep(realms, sha256, sys, step);
      Grows(realms, sys, next);
      StartBytes(realms, sha256, step);
      VerifierShape(realms[step.realm].realm.verifierLen, step.bytes);
      assert StartedOk(realms, sha256, next.started[|sys.started|]);
      AttemptEntries(realms, sha256, sys, step);
    }
  }

  lemma AttemptEntries(realms: Realms, sha256: string -> string, sys: System, step: Step)
    requires Setting(realms, sha256) && Inv(realms, sha256, sys)
    requires step.Attempt? && ValidStep(realms, step) && step.realm in realms && HexText(step.draw) !in sys.live
    ensures var next := AttemptStep(realms, sha256, sys, step);
      AllAlive(next) && forall s :: s in next.live ==> EntryOk(next, s)
  {
    hide HexText, AuthBytes, AuthorizationUrl, Challenge, FlightOk, SentOk, VerifierText, IsBytes, StartedOk, Distinct;
    var next := AttemptStep(realms, sha256, sys, step);
    forall s | s in next.live ensures EntryOk(next, s) {
      assert s != HexText(step.draw) ==> EntryOk(sys, s);
    }
  }

  lemma {:induction false} CallbackKeeps(realms: Realms, sha256: string -> string, sys: System, code: string, state: string)
    requires Setting(realms, sha256) && Inv(realms, sha256, sys) && IsBytes(code)
    ensures Inv(realms, sha256, CallbackStepOf(sys, code, state))
  {
    hide Inv;
    if code != "" && state != "" && state in sys.live {
      ConsumeKeeps(realms, sha256, sys, code, state);
    } else {
      RefusalKeeps(realms, sha256, sys, "missing_code_or_state");
      RefusalKeeps(realms, sha256, sys, "invalid_or_expired_state");
    }
  }

  /** A refused callback only reports an expected error. */
  lemma {:induction false} RefusalKeeps(realms: Realms, sha256: string -> string, sys: System, error: string)
    requires Setting(realms, sha256) && Inv(realms, sha256, sys) && Expected(error)
    ensures Inv(realms, sha256, sys.(errors := sys.errors + [error]))
  {
    hide StartedOk, SentOk, FlightOk, EntryOk, Distinct, Expected;
    var next := sys.(errors := sys.errors + [error]);
    Grows(realms, sys, next);
    EntriesKept(sys, next);
  }

  lemma EntryKept(a: System, b: System, s: string)
    requires s in a.live && s in b.live && a.live[s] == b.live[s]
    requires a.owner == b.owner && a.started == b.started && EntryOk(a, s) && s in a.owner && a.owner[s] !in b.spent
    ensures EntryOk(b, s)
  {
  }

  /** A consumed state turns into the flight of its login. */
  lemma {:induction false} ConsumeKeeps(realms: Realms, sha256: string -> string, sys: System, code: string, state: string)
    requires Setting(realms, sha256) && Inv(realms, sha256, sys) && IsBytes(code)
    requires code != "" && state != "" && state in sys.live
    ensures Inv(realms, sha256, CallbackStepOf(sys, code, state))
  {
    hide StartedOk, SentOk, FlightOk, IsBytes, Distinct;
    var next := CallbackStepOf(sys, code, state);
    Grows(realms, sys, next);
    assert EntryOk(sys, state);
    var start := sys.owner[state];
    forall s | s in next.live ensures EntryOk(next, s) {
      assert EntryOk(sys, s);
      EntryKept(sys, next, s);
    }
    FlightStarts(next, next.flights, |sys.flights|);
    forall i | 0 <= i < |sys.flights| ensures sys.flights[i].start != start {
      FlightIsSpent(sys, sys.flights[i]);
    }
    forall i | 0 <= i < |sys.sent| ensures sys.sent[i].start != start {
      SentIsSpent(realms, sys, sys.sent[i]);
    }
    AddedKeepsDistinct(sys.flights, sys.sent, next.flights[|sys.flights|]);
  }

  lemma AddedKeepsDistinct(flights: seq<Flight>, sent: seq<Sent>, f: Flight)
    requires Distinct(flights, sent)
    requires forall i :: 0 <= i < |flights| ==> flights[i].start != f.start
    requires forall i :: 0 <= i < |sent| ==> sent[i].start != f.start
    ensures Distinct(flights + [f], sent)
  {
  }

  lemma FlightIsSpent(sys: System, f: Flight)
    requires FlightOk(sys, f)
    ensures f.start in sys.spent
  {
  }

  lemma FlightStarts(next: System, flights: seq<Flight>, i: nat)
    requires i < |flights|
    requires var f := flights[i];
      f.start < |next.started| && f.start in next.spent && IsBytes(f.code) && f.code != ""
      && f.entry == StateEntry(next.started[f.start].verifier, next.started[f.start].realm)
    ensures FlightOk(next, flights[i])
  {
  }

  lemma {:induction false} SentIsSpent(realms: Realms, sys: System, x: Sent)
    requires ValidRealms(realms) && SentOk(realms, sys, x)
    ensures x.start in sys.spent
  {
  }

  /** A flight is never refused: its realm is configured and its verifier is not empty. */
  lemma FlightIsExchanged(realms: Realms, sha256: string -> string, sys: System, i: nat)
    requires Setting(realms, sha256) && Inv(realms, sha256, sys) && i < |sys.flights|
    ensures var f := sys.flights[i];
      && f.start < |sys.started| && f.entry.IsBytes() && IsBytes(f.code)
      && var s := sys.started[f.start];
      && s.realm in realms && TokenBytes(realms[s.realm].token, f.code, s.verifier)
      && AfterConsume(realms, f.entry, f.code)
         == Exchange(s.realm, ExchangeRequest(realms[s.realm].token, f.code, s.verifier))
      && SentOk(realms, sys, Sent(f.start, f.code, s.realm, ExchangeRequest(realms[s.realm].token, f.code, s.verifier)))
  {
    hide IsBytes, AuthBytes, AuthorizationUrl, ExchangeRequest;
    var f := sys.flights[i];
    assert FlightOk(sys, f);
    assert StartedOk(realms, sha256, sys.started[f.start]);
  }

  lemma WithoutKeepsDistinct(flights: seq<Flight>, sent: seq<Sent>, i: nat, x: Sent)
    requires Distinct(flights, sent) && i < |flights| && x.start == flights[i].start
    ensures Distinct(Without(flights, i), sent + [x])
    ensures |Without(flights, i)| == |flights| - 1
    ensures forall j :: 0 <= j < |Without(flights, i)| ==> Without(flights, i)[j] == flights[if j < i then j else j + 1]
  {
  }

  /** Entries stay in order when only flights, requests, errors and the clock change. */
  lemma EntriesKept(a: System, b: System)
    requires forall s :: s in b.live ==> s in a.live && b.live[s] == a.live[s]
    requires a.owner == b.owner && a.started == b.started && a.spent == b.spent
    ensures forall s :: s in b.live && EntryOk(a, s) ==> EntryOk(b, s)
  {
  }

  /** A flight becomes a sent request. */
  lemma {:induction false} MoveKeeps(realms: Realms, sha256: string -> string, sys: System, i: nat, x: Sent)
    requires Setting(realms, sha256) && Inv(realms, sha256, sys) && i < |sys.flights|
    requires x.start == sys.flights[i].start && SentOk(realms, sys, x)
    ensures Inv(realms, sha256, sys.(flights := Without(sys.flights, i), sent := sys.sent + [x]))
  {
    hide StartedOk, SentOk, FlightOk, EntryOk, Expected, Distinct, Without;
    var next := sys.(flights := Without(sys.flights, i), sent := sys.sent + [x]);
    Grows(realms, sys, next);
    EntriesKept(sys, next);
    WithoutKeepsDistinct(sys.flights, sys.sent, i, x);
    forall j | 0 <= j < |next.flights| ensures FlightOk(next, next.flights[j]) {
      assert FlightOk(sys, sys.flights[if j < i then j else j + 1]);
    }
    forall s | s in next.live ensures EntryOk(next, s) {
      assert EntryOk(sys, s);
    }
  }

  lemma {:induction false} SendKeeps(realms: Realms, sha256: string -> string, sys: System, i: nat)
    requires Setting(realms, sha256) && Inv(realms, sha256, sys) && i < |sys.flights|
    ensures Inv(realms, sha256, SendStep(realms, sha256, sys, i))
  {
    hide Inv, StartedOk, SentOk, FlightOk, AfterConsume, IsBytes, TokenBytes, ExchangeRequest;
    FlightIsExchanged(realms, sha256, sys, i);
    var f := sys.flights[i];
    var s := sys.started[f.start];
    MoveKeeps(realms, sha256, sys, i, Sent(f.start, f.code, s.realm, ExchangeRequest(realms[s.realm].token, f.code, s.verifier)));
  }

  lemma {:induction false} NextKeeps(realms: Realms, sha256: string -> string, sys: System, step: Step)
    requires Setting(realms, sha256) && Inv(realms, sha256, sys) && ValidStep(realms, step)
    ensures Inv(realms, sha256, Next(realms, sha256, sys, step))
  {
    hide AttemptStep, CallbackStepOf, SendStep, Inv;
    match step
    case Attempt(realm, _, _, _) =>
      if realm in realms {
        AttemptKeeps(realms, sha256, sys, step);
      }
    case Callback(code, state) => CallbackKeeps(realms, sha256, sys, code, state);
    case Send(i) =>
      if i < |sys.flights| {
        SendKeeps(realms, sha256, sys, i);
      }
    case Advance(ticks) => AdvanceKeeps(realms, sha256, sys, ticks);
  }

  lemma {:induction false} AdvanceKeeps(realms: Realms, sha256: string -> string, sys: System, ticks: nat)
    requires Setting(realms, sha256) && Inv(realms, sha256, sys)
    ensures Inv(realms, sha256, sys.(now := sys.now + ticks, live := Live(sys.live, sys.now + ticks)))
  {
    hide StartedOk, SentOk, FlightOk, EntryOk, Distinct;
    var next := sys.(now := sys.now + ticks, live := Live(sys.live, sys.now + ticks));
    Grows(realms, sys, next);
    EntriesKept(sys, next);
  }

  /** The state after a run. */
  ghost function Run(realms: Realms, sha256: string -> string, steps: seq<Step>): (sys: System)
    requires Setting(realms, sha256) && forall i :: 0 <= i < |steps| ==> ValidStep(realms, steps[i])
    ensures Inv(realms, sha256, sys)
  {
    if steps == [] then INITIAL
    else
      var sys := Run(realms, sha256, steps[..|steps| - 1]);
      NextKeeps(realms, sha256, sys, steps[|steps| - 1]);
      Next(realms, sha256, sys, steps[|steps| - 1])
  }

  // --------------------------------------------------------------------- safety

  /** The token requests for one login. */
  function RequestsOf(sent: seq<Sent>, start: nat): (r: seq<Sent>)
    ensures forall x :: x in r ==> x in sent && x.start == start
  {
    if sent == [] then []
    else RequestsOf(sent[..|sent| - 1], start) + if sent[|sent| - 1].start == start then [sent[|sent| - 1]] else []
  }

  lemma {:induction false} OneRequest(sent: seq<Sent>, start: nat)
    requires forall i, j :: 0 <= i < j < |sent| ==> sent[i].start != sent[j].start
    ensures |RequestsOf(sent, start)| <= 1
  {
    if sent != [] {
      var front, last := sent[..|sent| - 1], sent[|sent| - 1];
      OneRequest(front, start);
      var before := RequestsOf(front, start);
      assert before != [] ==> before[0] in before;
      assert forall x :: x in before ==> x.start != last.start;
    }
  }

  /** Login safety, over every interleaving: each started login leads to at most one token
      request; and no callback ends in "unknown_realm" or with an empty verifier. */
  lemma {:induction false} AtMostOneExchange(realms: Realms, sha256: string -> string, steps: seq<Step>, start: nat)
    requires Setting(realms, sha256) && forall i :: 0 <= i < |steps| ==> ValidStep(realms, steps[i])
    ensures |RequestsOf(Run(realms, sha256, steps).sent, start)| <= 1
    ensures var errors := Run(realms, sha256, steps).errors;
      forall i :: 0 <= i < |errors| ==> errors[i] == "missing_code_or_state" || errors[i] == "invalid_or_expired_state"
  {
    hide Next;
    var sys := Run(realms, sha256, steps);
    assert Distinct(sys.flights, sys.sent);
    OneRequest(sys.sent, start);
    assert forall i :: 0 <= i < |sys.errors| ==> Expected(sys.errors[i]);
  }

  /** The texts of one login's two requests fit together. */
  lemma {:induction false} TextsAreBound(cfg: Config, state: string, code: string, verifier: string, sha256: string -> string)
    requires IsSha256(sha256)
    requires AuthBytes(cfg.realm, state, Challenge(verifier, sha256)) && TokenBytes(cfg.token, code, verifier)
    ensures Bound(ParseForm(AuthorizationQuery(cfg.realm, state, Challenge(verifier, sha256))),
                  ParseForm(ExchangeRequest(cfg.token, code, verifier).body), state, code, sha256)
    ensures ExchangeRequest(cfg.token, code, verifier).url
         == OidcUrls.TrimSlashes(cfg.token.baseUrl) + "/realms/" + UrlEncode.Encode(cfg.token.realm) + "/protocol/openid-connect/token"
  {
    hide ExchangeRequest, AuthorizationQuery, ParseForm, AuthBytes, TokenBytes, IsBytes, JoinScopes;
    BodyCarries(cfg.token, code, verifier);
    QueryCarries(cfg.realm, state, Challenge(verifier, sha256));
  }

  /** PKCE binding, on the texts themselves: a token request goes to the token endpoint of
      the realm that was started, and its body carries the verifier whose S256 challenge
      is in the authorization URL together with the state of that login. */
  lemma {:induction false} ExchangeIsBound(realms: Realms, sha256: string -> string, steps: seq<Step>, k: nat)
    requires Setting(realms, sha256) && forall i :: 0 <= i < |steps| ==> ValidStep(realms, steps[i])
    requires k < |Run(realms, sha256, steps).sent|
    ensures var sys := Run(realms, sha256, steps);
      var x := sys.sent[k];
      && x.start < |sys.started|
      && var s := sys.started[x.start];
      && s.realm in realms && realms[s.realm].IsBytes() && x.realm == s.realm
      && x.request.url == OidcUrls.TrimSlashes(realms[s.realm].token.baseUrl) + "/realms/" + UrlEncode.Encode(realms[s.realm].token.realm)
                          + "/protocol/openid-connect/token"
      && exists query: string ::
           && s.url == AuthEndpoint(realms[s.realm].realm) + "?" + query
           && Bound(ParseForm(query), ParseForm(x.request.body), s.state, x.code, sha256)
  {
    hide Next, ExchangeRequest, AuthorizationQuery, ParseForm, AuthBytes, AuthEndpoint, Bound, Challenge;
    var sys := Run(realms, sha256, steps);
    var x := sys.sent[k];
    assert SentOk(realms, sys, x);
    var s := sys.started[x.start];
    assert StartedOk(realms, sha256, s);
    var cfg := realms[s.realm];
    TextsAreBound(cfg, s.state, x.code, s.verifier, sha256);
    var query := AuthorizationQuery(cfg.realm, s.state, Challenge(s.verifier, sha256));
    assert Bound(ParseForm(query), ParseForm(x.request.body), s.state, x.code, sha256);
  }

  /** What the identity provider checks (section 4.6 of RFC 7636), and the state. */
  ghost predicate Bound(query: map<string, string>, body: map<string, string>, state: string, code: string,
                        sha256: string -> string)
    requires IsSha256(sha256)
  {
    && "state" in query && query["state"] == state
    && "code_challenge_method" in query && query["code_challenge_method"] == "S256"
    && "code_challenge" in query && "code_verifier" in body && "code" in body && body["code"] == code
    && query["code_challenge"] == Challenge(body["code_verifier"], sha256)
  }
}
