/** The other half of login safety: a login whose user comes back in time is exchanged, whatever
    the other logins do in between. */
module LoginProgress {
  import opened Wrappers
  import opened Text
  import opened StateStore
  import opened RedisEntry
  import opened Pkce
  import opened Login
  import opened LoginProtocol

  /** The state stands for this entry of this login. */
  predicate Waiting(sys: System, s: string, stored: Stored, start: nat) {
    s in sys.live && sys.live[s] == stored && s in sys.owner && sys.owner[s] == start
  }

  /** A callback that uses up the state. */
  predicate Takes(step: Step, s: string) {
    step.Callback? && step.code != "" && step.state == s
  }

  ghost predicate AllValid(realms: Realms, steps: seq<Step>) {
    forall i :: 0 <= i < |steps| ==> ValidStep(realms, steps[i])
  }

  /** One step of any login leaves an entry alone that is live behind it, unless it takes it. */
  lemma {:induction false} StepKeepsWaiting(realms: Realms, sha256: string -> string, sys: System, step: Step, s: string,
                                            stored: Stored, start: nat)
    requires Setting(realms, sha256) && Inv(realms, sha256, sys) && ValidStep(realms, step)
    requires Waiting(sys, s, stored, start) && !Takes(step, s)
    requires Next(realms, sha256, sys, step).now < stored.expiresAt
    ensures Waiting(Next(realms, sha256, sys, step), s, stored, start)
  {
    hide Inv, HexText, AfterConsume, Challenge, AuthorizationUrl, VerifierText, IsBytes, AuthBytes;
  }

  lemma TimeAdvances(realms: Realms, sha256: string -> string, sys: System, step: Step)
    requires Setting(realms, sha256) && Inv(realms, sha256, sys) && ValidStep(realms, step)
    ensures Next(realms, sha256, sys, step).now >= sys.now
  {
    hide Inv, HexText, AfterConsume, Challenge, AuthorizationUrl, VerifierText, IsBytes, AuthBytes;
  }

  lemma RunStep(realms: Realms, sha256: string -> string, steps: seq<Step>, step: Step)
    requires Setting(realms, sha256) && AllValid(realms, steps) && ValidStep(realms, step)
    ensures AllValid(realms, steps + [step])
    ensures Run(realms, sha256, steps + [step]) == Next(realms, sha256, Run(realms, sha256, steps), step)
  {
  }

  /** And so does any run that does not take it, while it lives. */
  lemma {:induction false} RunKeepsWaiting(realms: Realms, sha256: string -> string, front: seq<Step>, middle: seq<Step>, s: string,
                                           stored: Stored, start: nat)
    requires Setting(realms, sha256) && AllValid(realms, front) && AllValid(realms, middle) && AllValid(realms, front + middle)
    requires Waiting(Run(realms, sha256, front), s, stored, start)
    requires forall i :: 0 <= i < |middle| ==> !Takes(middle[i], s)
    requires Run(realms, sha256, front + middle).now < stored.expiresAt
    ensures Waiting(Run(realms, sha256, front + middle), s, stored, start)
    decreases |middle|
  {
    hide Run, Next, Inv, Waiting, Takes;
    if middle == [] {
      assert front + middle == front;
    } else {
      var before, last := middle[..|middle| - 1], middle[|middle| - 1];
      assert front + middle == (front + before) + [last];
      RunStep(realms, sha256, front + before, last);
      var sys := Run(realms, sha256, front + before);
      TimeAdvances(realms, sha256, sys, last);
      RunKeepsWaiting(realms, sha256, front, before, s, stored, start);
      StepKeepsWaiting(realms, sha256, sys, last, s, stored, start);
    }
  }

  /** An attempt with a free state and time left waits under its state. */
  lemma {:induction false} AttemptWaits(realms: Realms, sha256: string -> string, sys: System, step: Step, s: string)
    requires Setting(realms, sha256) && Inv(realms, sha256, sys) && ValidStep(realms, step)
    requires step.Attempt? && step.realm in realms && s == HexText(step.draw) && s !in sys.live && sys.now < step.deadline
    ensures Waiting(Next(realms, sha256, sys, step), s, Stored(StateEntry(VerifierText(step.bytes), step.realm), step.deadline), |sys.started|)
    ensures s != ""
  {
    hide Inv, AfterConsume, Challenge, AuthorizationUrl, VerifierText, IsBytes, AuthBytes, HexText;
    HexTextInjective(step.draw, step.draw);
  }

  /** A callback in time takes the waiting entry into flight. */
  lemma {:induction false} WaitingIsTaken(sys: System, code: string, s: string, stored: Stored, start: nat)
    requires code != "" && s != "" && Waiting(sys, s, stored, start)
    ensures var called := CallbackStepOf(sys, code, s);
      && called.flights == sys.flights + [Flight(start, code, stored.entry)]
      && called.sent == sys.sent && called.started == sys.started
  {
  }

  lemma CallbackIsTaken(realms: Realms, sha256: string -> string, sys: System, code: string, s: string)
    requires Setting(realms, sha256) && Inv(realms, sha256, sys) && IsBytes(code)
    ensures Next(realms, sha256, sys, Callback(code, s)) == CallbackStepOf(sys, code, s)
  {
  }

  lemma SendIsTaken(realms: Realms, sha256: string -> string, sys: System, i: nat, realm: string, request: TokenRequest)
    requires Setting(realms, sha256) && Inv(realms, sha256, sys) && i < |sys.flights|
    requires var f := sys.flights[i];
      f.entry.IsBytes() && IsBytes(f.code) && AfterConsume(realms, f.entry, f.code) == Exchange(realm, request)
    ensures Next(realms, sha256, sys, Send(i)).sent
         == sys.sent + [Sent(sys.flights[i].start, sys.flights[i].code, realm, request)]
  {
    hide Inv, AttemptStep, CallbackStepOf, AfterConsume, IsBytes, ValidRealms;
  }

  /** The token request for an entry: in its realm and with its verifier. */
  predicate IsRequestOf(realms: Realms, x: Sent, start: nat, code: string, entry: StateEntry) {
    && entry.realm in realms && TokenBytes(realms[entry.realm].token, code, entry.codeVerifier)
    && x == Sent(start, code, entry.realm, ExchangeRequest(realms[entry.realm].token, code, entry.codeVerifier))
  }

  /** Sending flight `i` sends exactly this request. */
  ghost predicate Sends(realms: Realms, sha256: string -> string, sys: System, i: nat, x: Sent) {
    Setting(realms, sha256) && Inv(realms, sha256, sys) && Next(realms, sha256, sys, Send(i)).sent == sys.sent + [x]
  }

  /** A flight is sent to the realm and with the verifier of its entry. */
  lemma {:induction false} FlightIsSent(realms: Realms, sha256: string -> string, sys: System, i: nat) returns (x: Sent)
    requires Setting(realms, sha256) && Inv(realms, sha256, sys) && i < |sys.flights|
    ensures IsRequestOf(realms, x, sys.flights[i].start, sys.flights[i].code, sys.flights[i].entry)
    ensures Sends(realms, sha256, sys, i, x)
  {
    hide Inv, Next, ExchangeRequest, TokenBytes, IsBytes, AfterConsume, SentOk, FlightOk, StartedOk, Setting, ValidStep;
    FlightIsExchanged(realms, sha256, sys, i);
    FlightOfLogin(realms, sha256, sys, i);
    var f, s := sys.flights[i], sys.started[sys.flights[i].start];
    var request := ExchangeRequest(realms[s.realm].token, f.code, s.verifier);
    SendIsTaken(realms, sha256, sys, i, s.realm, request);
    x := Sent(f.start, f.code, s.realm, request);
  }

  lemma {:induction false} FlightOfLogin(realms: Realms, sha256: string -> string, sys: System, i: nat)
    requires Setting(realms, sha256) && Inv(realms, sha256, sys) && i < |sys.flights|
    ensures var f := sys.flights[i];
      f.start < |sys.started| && f.entry == StateEntry(sys.started[f.start].verifier, sys.started[f.start].realm)
  {
    hide StartedOk, EntryOk, SentOk;
    assert FlightOk(sys, sys.flights[i]);
  }

  /** A callback is in flight, or its request has been sent. */
  ghost predicate OnItsWay(sys: System, f: Flight, x: Sent) {
    (exists i :: 0 <= i < |sys.flights| && sys.flights[i] == f) || x in sys.sent
  }

  /** One step of any login leaves a flight where it is or sends its request. */
  lemma {:induction false} StepKeepsFlight(realms: Realms, sha256: string -> string, sys: System, step: Step, f: Flight, x: Sent)
    requires Setting(realms, sha256) && Inv(realms, sha256, sys) && ValidStep(realms, step)
    requires OnItsWay(sys, f, x) && IsRequestOf(realms, x, f.start, f.code, f.entry)
    ensures OnItsWay(Next(realms, sha256, sys, step), f, x)
  {
    hide Inv, Setting, IsRequestOf, ValidStep, AttemptStep, SendStep;
    if step.Send? && step.flight < |sys.flights| {
      SendKeepsFlight(realms, sha256, sys, step.flight, f, x);
    } else if x in sys.sent {
      OthersKeepFlights(realms, sha256, sys, step);
    } else {
      OthersKeepFlights(realms, sha256, sys, step);
      var i :| 0 <= i < |sys.flights| && sys.flights[i] == f;
      assert Next(realms, sha256, sys, step).flights[i] == f;
    }
  }

  lemma OthersKeepFlights(realms: Realms, sha256: string -> string, sys: System, step: Step)
    requires Setting(realms, sha256) && Inv(realms, sha256, sys) && ValidStep(realms, step)
    requires !(step.Send? && step.flight < |sys.flights|)
    ensures var next := Next(realms, sha256, sys, step); sys.flights <= next.flights && next.sent == sys.sent
  {
    hide Inv, HexText, AfterConsume, Challenge, AuthorizationUrl, VerifierText, IsBytes, AuthBytes;
  }

  lemma {:induction false} SendKeepsFlight(realms: Realms, sha256: string -> string, sys: System, i: nat, f: Flight, x: Sent)
    requires Setting(realms, sha256) && Inv(realms, sha256, sys) && i < |sys.flights|
    requires OnItsWay(sys, f, x) && IsRequestOf(realms, x, f.start, f.code, f.entry)
    ensures OnItsWay(Next(realms, sha256, sys, Send(i)), f, x)
  {
    hide Inv, Setting, Next, ExchangeRequest, TokenBytes;
    var y := FlightIsSent(realms, sha256, sys, i);
    SendRemoves(realms, sha256, sys, i);
    var next := Next(realms, sha256, sys, Send(i));
    assert next.sent == sys.sent + [y];
    if x !in sys.sent {
      var j :| 0 <= j < |sys.flights| && sys.flights[j] == f;
      if j == i {
        assert x == y;
      } else {
        assert next.flights[if j < i then j else j - 1] == f;
      }
    }
  }

  lemma SendRemoves(realms: Realms, sha256: string -> string, sys: System, i: nat)
    requires Setting(realms, sha256) && Inv(realms, sha256, sys) && i < |sys.flights|
    ensures Next(realms, sha256, sys, Send(i)).flights == Without(sys.flights, i)
  {
    hide Inv, AttemptStep, CallbackStepOf, AfterConsume, IsBytes, ValidRealms;
  }

  /** And so does any run. */
  lemma {:induction false} RunKeepsFlight(realms: Realms, sha256: string -> string, front: seq<Step>, more: seq<Step>, f: Flight, x: Sent)
    requires Setting(realms, sha256) && AllValid(realms, front) && AllValid(realms, more) && AllValid(realms, front + more)
    requires OnItsWay(Run(realms, sha256, front), f, x) && IsRequestOf(realms, x, f.start, f.code, f.entry)
    ensures OnItsWay(Run(realms, sha256, front + more), f, x)
    decreases |more|
  {
    hide Run, Next, Inv, OnItsWay, IsRequestOf;
    if more == [] {
      assert front + more == front;
    } else {
      var before, last := more[..|more| - 1], more[|more| - 1];
      assert front + more == (front + before) + [last];
      RunStep(realms, sha256, front + before, last);
      RunKeepsFlight(realms, sha256, front, before, f, x);
      StepKeepsFlight(realms, sha256, Run(realms, sha256, front + before), last, f, x);
    }
  }

  /** The callback of a waiting login is in flight, and what is sent for it is for its own verifier in its own realm. */
  lemma {:induction false} CallbackIsOnItsWay(realms: Realms, sha256: string -> string, sys: System, code: string, s: string,
                                              stored: Stored, start: nat) returns (x: Sent)
    requires Setting(realms, sha256) && Inv(realms, sha256, sys) && IsBytes(code) && code != "" && s != ""
    requires Waiting(sys, s, stored, start)
    ensures IsRequestOf(realms, x, start, code, stored.entry)
    ensures OnItsWay(Next(realms, sha256, sys, Callback(code, s)), Flight(start, code, stored.entry), x)
  {
    hide Inv, Next, Waiting, CallbackStepOf, IsRequestOf, IsBytes, Setting, Sends;
    NextKeeps(realms, sha256, sys, Callback(code, s));
    CallbackIsTaken(realms, sha256, sys, code, s);
    WaitingIsTaken(sys, code, s, stored, start);
    var called := CallbackStepOf(sys, code, s);
    x := FlightIsSent(realms, sha256, called, |sys.flights|);
    assert called.flights[|sys.flights|] == Flight(start, code, stored.entry);
  }

  /** The run of one login: behind `front` it is stored, `middle` passes until its callback, and then `more`. */
  datatype Course = Course(front: seq<Step>, attempt: Step, middle: seq<Step>, code: string, more: seq<Step>)
  {
    function State(): string
      requires attempt.Attempt? && IsBytes(attempt.draw)
    {
      HexText(attempt.draw)
    }

    function ToCallback(): seq<Step> {
      front + [attempt] + middle
    }

    function Steps(): seq<Step>
      requires attempt.Attempt? && IsBytes(attempt.draw)
    {
      ToCallback() + [Callback(code, State())] + more
    }

    function Entry(): StateEntry
      requires attempt.Attempt?
    {
      StateEntry(VerifierText(attempt.bytes), attempt.realm)
    }

    /** The state is free when it is drawn, nobody uses it before the callback, and the callback comes in time. */
    ghost predicate InTime(realms: Realms, sha256: string -> string)
      requires Setting(realms, sha256)
    {
      && attempt.Attempt? && ValidStep(realms, attempt) && attempt.realm in realms && IsBytes(code) && code != ""
      && AllValid(realms, front) && AllValid(realms, middle) && AllValid(realms, more) && AllValid(realms, ToCallback())
      && State() !in Run(realms, sha256, front).live
      && (forall i :: 0 <= i < |middle| ==> !Takes(middle[i], State()))
      && Run(realms, sha256, ToCallback()).now < attempt.deadline
    }
  }

  lemma CourseIsValid(realms: Realms, sha256: string -> string, c: Course)
    requires Setting(realms, sha256) && c.InTime(realms, sha256)
    ensures AllValid(realms, c.front + [c.attempt]) && AllValid(realms, c.ToCallback() + [Callback(c.code, c.State())])
    ensures AllValid(realms, c.Steps())
  {
    hide Run, IsBytes, HexText, Takes;
  }

  lemma {:induction false} NowGrows(realms: Realms, sha256: string -> string, front: seq<Step>, more: seq<Step>)
    requires Setting(realms, sha256) && AllValid(realms, front) && AllValid(realms, more) && AllValid(realms, front + more)
    ensures Run(realms, sha256, front).now <= Run(realms, sha256, front + more).now
    decreases |more|
  {
    hide Run, Next, Inv;
    if more == [] {
      assert front + more == front;
    } else {
      var before, last := more[..|more| - 1], more[|more| - 1];
      assert front + more == (front + before) + [last];
      RunStep(realms, sha256, front + before, last);
      NowGrows(realms, sha256, front, before);
      TimeAdvances(realms, sha256, Run(realms, sha256, front + before), last);
    }
  }

  /** Login progress: behind any run, a login whose callback with a code comes before its time-out and is the
      first to use its state is exchanged, whatever other logins do between its storing, its callback and
      its sending: its one request, to the realm that was started and with its verifier, has been sent,
      or is what the next sending of its flight sends. */
  lemma {:induction false} LoginCompletes(realms: Realms, sha256: string -> string, c: Course) returns (x: Sent)
    requires Setting(realms, sha256) && c.InTime(realms, sha256)
    ensures AllValid(realms, c.Steps())
    ensures IsRequestOf(realms, x, |Run(realms, sha256, c.front).started|, c.code, c.Entry())
    ensures var sys := Run(realms, sha256, c.Steps());
      x in sys.sent || exists i: nat :: i < |sys.flights| && Sends(realms, sha256, sys, i, x)
  {
    hide Run, Next, Inv, Waiting, Takes, HexText, VerifierText, IsRequestOf, IsBytes, OnItsWay;
    CourseIsValid(realms, sha256, c);
    var s, start := c.State(), |Run(realms, sha256, c.front).started|;
    LoginWaits(realms, sha256, c);
    var called := c.ToCallback() + [Callback(c.code, s)];
    RunStep(realms, sha256, c.ToCallback(), Callback(c.code, s));
    x := CallbackIsOnItsWay(realms, sha256, Run(realms, sha256, c.ToCallback()), c.code, s, Stored(c.Entry(), c.attempt.deadline), start);
    RunKeepsFlight(realms, sha256, called, c.more, Flight(start, c.code, c.Entry()), x);
    FlightSends(realms, sha256, Run(realms, sha256, c.Steps()), Flight(start, c.code, c.Entry()), x);
  }

  lemma {:induction false} LoginWaits(realms: Realms, sha256: string -> string, c: Course)
    requires Setting(realms, sha256) && c.InTime(realms, sha256)
    ensures Waiting(Run(realms, sha256, c.ToCallback()), c.State(), Stored(c.Entry(), c.attempt.deadline),
                    |Run(realms, sha256, c.front).started|)
    ensures c.State() != ""
  {
    hide Run, Next, Inv, Waiting, Takes, HexText, VerifierText, IsBytes;
    CourseIsValid(realms, sha256, c);
    var first := Run(realms, sha256, c.front);
    assert c.ToCallback() == c.front + ([c.attempt] + c.middle);
    OneAndMore(realms, c.attempt, c.middle);
    NowGrows(realms, sha256, c.front, [c.attempt] + c.middle);
    RunStep(realms, sha256, c.front, c.attempt);
    AttemptWaits(realms, sha256, first, c.attempt, c.State());
    RunKeepsWaiting(realms, sha256, c.front + [c.attempt], c.middle, c.State(), Stored(c.Entry(), c.attempt.deadline), |first.started|);
  }

  lemma OneAndMore(realms: Realms, step: Step, more: seq<Step>)
    requires ValidStep(realms, step) && AllValid(realms, more)
    ensures AllValid(realms, [step] + more)
  {
  }

  lemma {:induction false} FlightSends(realms: Realms, sha256: string -> string, sys: System, f: Flight, x: Sent)
    requires Setting(realms, sha256) && Inv(realms, sha256, sys)
    requires OnItsWay(sys, f, x) && IsRequestOf(realms, x, f.start, f.code, f.entry)
    ensures x in sys.sent || exists i: nat :: i < |sys.flights| && Sends(realms, sha256, sys, i, x)
  {
    hide Inv, Setting, Next, Sends, ExchangeRequest, TokenBytes;
    if x !in sys.sent {
      var i: nat :| i < |sys.flights| && sys.flights[i] == f;
      var y := FlightIsSent(realms, sha256, sys, i);
      assert x == y;
    }
  }
}
