/**
 The startup of one connection: the SCRAM state machine (src/scram_verifier.rs:363-548) inside
 pywire's own startup handler (src/server.rs:190-258), which opens the Python session where the
 authentication method has not already done so.

 What the rest of the world answers while a message is handled is part of the input.  So a step is a
 function of status, message and answers, the methods of `ConnectionStartup` are proved against it,
 and the theorems speak of whole runs by their inputs.
 */
module ScramStartup {
  import opened Wrappers
  import opened Bytes
  import opened Base64
  import opened ScramVerifier
  import opened Scram

  datatype State = Initial | ServerFirstSent(exchange: Exchange) | Done

  datatype StartupError =
    | TlsRequired | BadMessage | Refused(error: ScramError) | PythonRaised | InvalidState
    | NegotiationBroken | SendFailed | FinishFailed | OtherFailed

  type Outcome = Result<(), StartupError>

  datatype InitialResponse = InitialResponse(mechanism: Text, data: Option<Text>)

  /** A frontend message before authentication is over.  The body of a password message is read as
      whichever response the state calls for, if it can be. */
  datatype Message =
    | Startup
    | Password(initial: Option<InitialResponse>, response: Option<Text>)
    | Other

  /** What Python's verifier source answers; `Found(None)` for an unknown user. */
  datatype LookupReply = Raised | Found(verifier: Option<Verifier>)

  /** What comes back while one message is handled: whether the protocol version was agreed on and the
      list of mechanisms sent; the verifier and the random bytes; whether the server-first-message
      was sent, the session opened, the server signature sent and the authentication finished, or
      the client made ready although finishing failed.  The last two are for pgwire's own
      authentication methods, which are outside this model. */
  datatype Answers = Answers(
    protocolAgreed: bool, mechanismsSent: bool,
    lookup: LookupReply, random: Text, continueSent: bool,
    sessionOpened: bool, finalSent: bool, finished: bool, readyAnyway: bool,
    otherOk: bool, otherReady: bool)

  datatype Input = Input(message: Message, answers: Answers)

  /** What comes of starting an exchange, before anything is sent. */
  type Attempt = r: Result<Exchange, StartupError> |
    r.Ok? || r.error.BadMessage? || r.error.Refused? || r.error.PythonRaised? witness Err(BadMessage)

  /** An input as it is understood before the state is looked at; `started` is what comes of a password
      message that is taken as the first. */
  datatype Reading =
    | Greeting
    | Credentials(started: Attempt, response: Option<Text>)
    | Irrelevant

  datatype Event = Event(reading: Reading, answers: Answers)

  datatype Config = Config(
    crypto: Crypto, certificate: Option<Text>, mockSecret: Text, mockIterations: nat,
    requireTls: bool, secure: bool, factory: bool, scram: bool, user: Text)
  {
    /** The certificate hash that can be bound to on this connection. */
    function Offered(): Option<Text> {
      if secure then certificate else None
    }
  }

  /** What happens at most once in a startup, in this order. */
  datatype Step = Lookup | Verified | SessionOpened | FinalSent | Finished

  /** The only order of steps; only with a session factory is a session opened. */
  function Script(factory: bool): seq<Step> {
    if factory then [Lookup, Verified, SessionOpened, FinalSent, Finished]
    else [Lookup, Verified, FinalSent, Finished]
  }

  datatype Status = Status(state: State, session: bool, ready: bool, resources: bool, steps: seq<Step>)

  const NEW := Status(Initial, false, false, false, [])

  // ---------- One step ---------------------------------------------------

  /** The client-first-message and the channel-binding data agreed on, before anyone is looked up. */
  function Agreed(c: Config, initial: InitialResponse): Result<(ClientFirst, Text), ScramError> {
    if initial.data.None? then Err(NoFirstMessage)
    else if !ValidUtf8(initial.data.value) then Err(NotUtf8)
    else
      match ParseFirst(initial.data.value)
      case Err(e) => Err(e)
      case Ok(first) =>
        match Negotiate(initial.mechanism, first.flag, c.Offered())
        case Err(e) => Err(e)
        case Ok(data) => Ok((first, data))
  }

  function Start(c: Config, initial: InitialResponse, a: Answers): Attempt
    requires c.crypto.Sound()
  {
    match Agreed(c, initial)
    case Err(e) => Err(Refused(e))
    case Ok((first, data)) =>
      match a.lookup
      case Raised => Err(PythonRaised)
      case Found(found) =>
        var verifier :=
          if found.Some? then found.value else MockVerifier(c.crypto, c.mockSecret, c.user, c.mockIterations);
        Ok(NewExchange(first, data, Encode(a.random), c.user, verifier, found.None?))
  }

  /** Nothing but the lookup itself fails once the client's first message has been agreed on. */
  predicate LookedUp(started: Attempt) {
    started.Ok? || started.error.PythonRaised?
  }

  function Heard(c: Config, i: Input): Event
    requires c.crypto.Sound()
  {
    match i.message
    case Startup => Event(Greeting, i.answers)
    case Password(None, response) => Event(Credentials(Err(BadMessage), response), i.answers)
    case Password(Some(initial), response) => Event(Credentials(Start(c, initial, i.answers), response), i.answers)
    case Other => Event(Irrelevant, i.answers)
  }

  /** An accepted proof opens the session, then sends the signature, then finishes; the first of these
      that fails ends it. */
  ghost function AfterFinal(c: Config, s: Status, x: Exchange, response: Text, a: Answers): (Status, Outcome) {
    var verdict := Verify(c.crypto, x, response);
    var verified := s.steps + [Verified];
    var taken := if c.factory then verified + [SessionOpened] else verified;
    if verdict.Err? then (s, Err(Refused(verdict.error)))
    else if c.factory && !a.sessionOpened then (s.(steps := verified), Err(PythonRaised))
    else
      var t := s.(session := s.session || c.factory, steps := taken);
      if !a.finalSent then (t, Err(SendFailed))
      else if !a.finished then (t.(ready := a.readyAnyway, steps := taken + [FinalSent]), Err(FinishFailed))
      else (t.(ready := true, steps := taken + [FinalSent] + [Finished]), Ok(()))
  }

  ghost function AfterPassword(c: Config, s: Status, e: Event): (Status, Outcome)
    requires e.reading.Credentials?
  {
    var Credentials(started, response) := e.reading;
    match s.state
    case Initial =>
      var t := s.(state := if started.Ok? then ServerFirstSent(started.value) else Done,
                  steps := if LookedUp(started) then s.steps + [Lookup] else s.steps);
      (t, if started.Err? then Err(started.error) else if e.answers.continueSent then Ok(()) else Err(SendFailed))
    case ServerFirstSent(x) =>
      var t := s.(state := Done);
      if response.None? then (t, Err(BadMessage)) else AfterFinal(c, t, x, response.value, e.answers)
    case Done => (s, Err(InvalidState))
  }

  /** The authentication method's own part.  The client is not ready while it authenticates. */
  ghost function AfterInner(c: Config, s: Status, e: Event): (Status, Outcome) {
    var a := e.answers;
    if !c.scram then (s.(ready := a.otherReady), if a.otherOk then Ok(()) else Err(OtherFailed))
    else
      match e.reading
      case Greeting =>
        if !a.protocolAgreed then (s, Err(NegotiationBroken))
        else (s.(ready := false), if a.mechanismsSent then Ok(()) else Err(SendFailed))
      case Credentials(_, _) => AfterPassword(c, s, e)
      case Irrelevant => (s, Ok(()))
  }

  ghost function After(c: Config, s: Status, e: Event): (Status, Outcome) {
    if c.requireTls && e.reading.Greeting? && !c.secure then (s, Err(TlsRequired))
    else
      var (t, r) := AfterInner(c, s, e);
      if r.Err? then (t, r) else AfterReady(c, t, e.answers)
  }

  /** A ready client has the resources installed and, if it still has none, a session opened. */
  ghost function AfterReady(c: Config, t: Status, a: Answers): (Status, Outcome) {
    if !t.ready then (t, Ok(()))
    else if t.session || !c.factory then (t.(resources := true), Ok(()))
    else if !a.sessionOpened then (t.(resources := true), Err(PythonRaised))
    else (t.(resources := true, session := true, steps := t.steps + [SessionOpened]), Ok(()))
  }

  // ---------- The handler ------------------------------------------------

  class ConnectionStartup {
    const config: Config

    var state: State
    var session: bool
    var ready: bool
    var resources: bool
    ghost var steps: seq<Step>

    constructor (config: Config)
      ensures Now() == NEW && this.config == config
    {
      this.config := config;
      state, session, ready, resources, steps := Initial, false, false, false, [];
    }

    ghost function Now(): Status
      reads this
    {
      Status(state, session, ready, resources, steps)
    }

    ghost method Take(step: Step)
      modifies `steps
      ensures steps == old(steps) + [step]
    {
      steps := steps + [step];
    }

    method OpenSession(ok: bool) returns (r: Outcome)
      modifies `session, `steps
      ensures r == if ok then Ok(()) else Err(PythonRaised)
      ensures session == (old(session) || ok)
      ensures steps == if ok then old(steps) + [SessionOpened] else old(steps)
    {
      if !ok {
        return Err(PythonRaised);
      }
      session := true;
      Take(SessionOpened);
      return Ok(());
    }

    method OnPassword(initial: Option<InitialResponse>, response: Option<Text>, a: Answers) returns (r: Outcome)
      requires config.crypto.Sound()
      modifies this
      ensures (Now(), r) == AfterPassword(config, old(Now()), Heard(config, Input(Password(initial, response), a)))
      ensures r == Err(InvalidState) <==> old(state).Done?
    {
      var taken := state;
      state := Done;
      match taken {
        case Initial =>
          if initial.None? {
            return Err(BadMessage);
          }
          var exchange := Start(config, initial.value, a);
          if LookedUp(exchange) {
            Take(Lookup);
          }
          if exchange.Err? {
            return Err(exchange.error);
          }
          state := ServerFirstSent(exchange.value);
          return if a.continueSent then Ok(()) else Err(SendFailed);
        case ServerFirstSent(exchange) =>
          if response.None? {
            return Err(BadMessage);
          }
          r := Finish(exchange, response.value, a);
        case Done =>
          return Err(InvalidState);
      }
    }

    /** From the client-final-message to the end of authentication. */
    method Finish(exchange: Exchange, response: Text, a: Answers) returns (r: Outcome)
      modifies `session, `ready, `steps
      ensures (Now(), r) == AfterFinal(config, old(Now()), exchange, response, a)
    {
      var final := Verify(config.crypto, exchange, response);
      if final.Err? {
        return Err(Refused(final.error));
      }
      Take(Verified);
      if config.factory {
        r := OpenSession(a.sessionOpened);
        if r.Err? {
          return;
        }
      }
      if !a.finalSent {
        return Err(SendFailed);
      }
      Take(FinalSent);
      if !a.finished {
        ready := a.readyAnyway;
        return Err(FinishFailed);
      }
      ready := true;
      Take(Finished);
      return Ok(());
    }

    method InnerOnStartup(i: Input) returns (r: Outcome)
      requires config.crypto.Sound()
      modifies this
      ensures (Now(), r) == AfterInner(config, old(Now()), Heard(config, i))
    {
      if !config.scram {
        ready := i.answers.otherReady;
        return if i.answers.otherOk then Ok(()) else Err(OtherFailed);
      }
      match i.message {
        case Startup =>
          if !i.answers.protocolAgreed {
            return Err(NegotiationBroken);
          }
          ready := false;
          r := if i.answers.mechanismsSent then Ok(()) else Err(SendFailed);
        case Password(initial, response) => r := OnPassword(initial, response, i.answers);
        case Other => r := Ok(());
      }
    }

    method OnStartup(i: Input) returns (r: Outcome)
      requires config.crypto.Sound()
      modifies this
      ensures (Now(), r) == After(config, old(Now()), Heard(config, i))
    {
      if config.requireTls && i.message.Startup? && !config.secure {
        return Err(TlsRequired);
      }
      r := InnerOnStartup(i);
      if r.Ok? {
        r := Install(i.answers);
      }
    }

    method Install(a: Answers) returns (r: Outcome)
      modifies `resources, `session, `steps
      ensures (Now(), r) == AfterReady(config, old(Now()), a)
    {
      r := Ok(());
      if ready && !resources {
        resources := true;
      }
      if ready && !session && config.factory {
        r := OpenSession(a.sessionOpened);
      }
    }

    /** All messages of a startup in turn. */
    method Run(inputs: seq<Input>) returns (outcomes: seq<Outcome>)
      requires config.crypto.Sound() && Now() == NEW
      modifies this
      ensures Now() == Reached(config, HeardAll(config, inputs), |inputs|)
      ensures |outcomes| == |inputs|
      ensures forall i | 0 <= i < |inputs| :: outcomes[i] == Answered(config, HeardAll(config, inputs), i)
    {
      outcomes := [];
      for n := 0 to |inputs|
        invariant |outcomes| == n && Now() == Reached(config, HeardAll(config, inputs), n)
        invariant forall i | 0 <= i < n :: outcomes[i] == Answered(config, HeardAll(config, inputs), i)
      {
        RunStep(config, HeardAll(config, inputs), n);
        var r := OnStartup(inputs[n]);
        outcomes := outcomes + [r];
      }
    }
  }

  // ---------- Runs -------------------------------------------------------

  /** The status before event `n`.  (The step to it is a function of its own, so that it is looked at
      only where `RunStep` says so.) */
  ghost function Reached(c: Config, es: seq<Event>, n: nat): Status
    requires n <= |es|
    decreases n, 1
  {
    if n == 0 then NEW else ReachedLast(c, es, n)
  }

  ghost function ReachedLast(c: Config, es: seq<Event>, n: nat): Status
    requires 0 < n <= |es|
    decreases n, 0
  {
    After(c, Reached(c, es, n - 1), es[n - 1]).0
  }

  ghost function Answered(c: Config, es: seq<Event>, i: nat): Outcome
    requires i < |es|
  {
    After(c, Reached(c, es, i), es[i]).1
  }

  lemma RunStep(c: Config, es: seq<Event>, n: nat)
    requires n < |es|
    ensures (Reached(c, es, n + 1), Answered(c, es, n)) == After(c, Reached(c, es, n), es[n])
  {
  }

  function HeardAll(c: Config, inputs: seq<Input>): (es: seq<Event>)
    requires c.crypto.Sound()
    ensures |es| == |inputs|
  {
    seq(|inputs|, k requires 0 <= k < |inputs| => Heard(c, inputs[k]))
  }

  predicate IsPassword(es: seq<Event>, i: int) {
    0 <= i < |es| && es[i].reading.Credentials?
  }

  predicate FirstPassword(es: seq<Event>, i: int) {
    IsPassword(es, i) && forall k | 0 <= k < i :: !IsPassword(es, k)
  }

  predicate NextPassword(es: seq<Event>, i: int, j: int) {
    i < j && IsPassword(es, j) && forall k | i < k < j :: !IsPassword(es, k)
  }

  /** Password message `j` completes the exchange `x`, if it is the next after the one that started it. */
  ghost predicate Completes(c: Config, es: seq<Event>, j: int, x: Exchange) {
    && IsPassword(es, j) && es[j].reading.response.Some?
    && Verify(c.crypto, x, es[j].reading.response.value).Ok?
  }

  /** What a status is worth at any time: the steps are an initial part of the script, a session is
      open exactly if its step was taken, and nobody is ready to whom no signature was sent. */
  ghost predicate OnScript(c: Config, s: Status) {
    && s.steps <= Script(c.factory)
    && (s.state.Initial? ==> s.steps == [])
    && (s.state.ServerFirstSent? ==> s.steps == [Lookup])
    && (s.session <==> |s.steps| >= 3 && c.factory)
    && (s.ready ==> FinalSent in s.steps)
  }

  /** Other methods of authentication take no step but the opening of the session. */
  ghost predicate Sane(c: Config, s: Status) {
    if c.scram then OnScript(c, s)
    else s.state.Initial? && (s.session ==> c.factory) && s.steps == if s.session then [SessionOpened] else []
  }

  lemma SaneFinal(c: Config, s: Status, x: Exchange, response: Text, a: Answers)
    requires OnScript(c, s) && s.state.Done? && s.steps == [Lookup] && !s.session && !s.ready
    ensures OnScript(c, AfterFinal(c, s, x, response, a).0)
    ensures s.steps <= AfterFinal(c, s, x, response, a).0.steps
  {
    var t := AfterFinal(c, s, x, response, a).0;
    if FinalSent in t.steps {
      assert t.steps[if c.factory then 3 else 2] == FinalSent;
    }
  }

  lemma SanePassword(c: Config, s: Status, e: Event)
    requires OnScript(c, s) && e.reading.Credentials?
    ensures OnScript(c, AfterPassword(c, s, e).0)
    ensures s.steps <= AfterPassword(c, s, e).0.steps
  {
    if s.state.ServerFirstSent? && e.reading.response.Some? {
      assert FinalSent !in s.steps;
      SaneFinal(c, s.(state := Done), s.state.exchange, e.reading.response.value, e.answers);
    }
  }

  lemma SentIsFar(c: Config, steps: seq<Step>)
    requires steps <= Script(c.factory) && FinalSent in steps
    ensures |steps| >= (if c.factory then 4 else 3)
    ensures steps[1] == Verified && (c.factory ==> steps[2] == SessionOpened)
  {
    var i :| 0 <= i < |steps| && steps[i] == FinalSent;
    assert steps[i] == Script(c.factory)[i];
  }

  /** The outer layer never opens a session for this method, and only password messages move it. */
  lemma OnlyPasswordsCount(c: Config, s: Status, e: Event)
    requires c.scram && OnScript(c, s)
    ensures e.reading.Credentials? ==>
      var (t, r) := AfterPassword(c, s, e);
      After(c, s, e) == (if r.Ok? && t.ready then t.(resources := true) else t, r)
    ensures !e.reading.Credentials? ==> After(c, s, e).0.state == s.state && After(c, s, e).0.steps == s.steps
    ensures OnScript(c, After(c, s, e).0) && s.steps <= After(c, s, e).0.steps
  {
    if e.reading.Credentials? {
      SanePassword(c, s, e);
    }
    var t := AfterInner(c, s, e).0;
    if t.ready {
      SentIsFar(c, t.steps);
    }
  }

  lemma SaneStep(c: Config, s: Status, e: Event)
    requires Sane(c, s)
    ensures Sane(c, After(c, s, e).0)
    ensures s.steps <= After(c, s, e).0.steps
  {
    if c.scram {
      OnlyPasswordsCount(c, s, e);
    }
  }

  // ---------- What a run comes to ----------------------------------------

  lemma {:induction false} SaneRun(c: Config, es: seq<Event>, n: nat)
    requires n <= |es|
    ensures Sane(c, Reached(c, es, n))
  {
    if n > 0 {
      SaneRun(c, es, n - 1);
      SaneStep(c, Reached(c, es, n - 1), es[n - 1]);
      RunStep(c, es, n - 1);
    }
  }

  /** The script of a run only grows, so no step of it is ever taken back or taken twice. */
  lemma {:induction false} StepsFollowScript(c: Config, es: seq<Event>, n: nat, m: nat)
    requires n <= m <= |es|
    ensures Reached(c, es, n).steps <= Reached(c, es, m).steps
    ensures Reached(c, es, m).steps <= if c.scram then Script(c.factory) else [SessionOpened]
    decreases m - n
  {
    SaneRun(c, es, m);
    if n < m {
      SaneRun(c, es, n);
      SaneStep(c, Reached(c, es, n), es[n]);
      RunStep(c, es, n);
      assert Reached(c, es, n).steps <= Reached(c, es, n + 1).steps;
      StepsFollowScript(c, es, n + 1, m);
    }
  }

  /** Whenever the signature has been sent, the proof had been verified before, and the session been
      opened if there is a session factory. */
  lemma SignatureComesLate(c: Config, es: seq<Event>, n: nat)
    requires n <= |es| && c.scram && FinalSent in Reached(c, es, n).steps
    ensures var steps := Reached(c, es, n).steps;
      && |steps| >= 3 && steps[1] == Verified
      && (if c.factory then |steps| >= 4 && steps[2] == SessionOpened && steps[3] == FinalSent
          else steps[2] == FinalSent)
    ensures Reached(c, es, n).session == c.factory
  {
    SaneRun(c, es, n);
    SentIsFar(c, Reached(c, es, n).steps);
  }

  /** What a password message makes of a state. */
  function NextState(s: State, r: Reading): State {
    if !r.Credentials? then s
    else if s.Initial? && r.started.Ok? then ServerFirstSent(r.started.value)
    else Done
  }

  lemma StateStep(c: Config, es: seq<Event>, n: nat)
    requires n < |es| && c.scram
    ensures Reached(c, es, n + 1).state == NextState(Reached(c, es, n).state, es[n].reading)
  {
    SaneRun(c, es, n);
    OnlyPasswordsCount(c, Reached(c, es, n), es[n]);
    RunStep(c, es, n);
  }

  predicate Quiet(es: seq<Event>, i: int, n: int) {
    forall k | i < k < n :: !IsPassword(es, k)
  }

  /** The state of a run is told by its password messages: initial before the first, then what the
      first one made of it, and done from the second one on. */
  lemma {:induction false} StateOfRun(c: Config, es: seq<Event>, n: nat) returns (i: int)
    requires n <= |es| && c.scram
    ensures var s := Reached(c, es, n).state;
      if s.Initial? then forall k | 0 <= k < n :: !IsPassword(es, k)
      else
        && i < n && FirstPassword(es, i)
        && s == if Quiet(es, i, n) then NextState(Initial, es[i].reading) else Done
  {
    i := -1;
    if n > 0 {
      i := StateOfRun(c, es, n - 1);
      StateStep(c, es, n - 1);
      if IsPassword(es, n - 1) && Reached(c, es, n - 1).state.Initial? {
        i := n - 1;
      }
    }
  }

  // ---------- Other messages ---------------------------------------------

  /** Without TLS where it is required the startup message is refused, nothing else is refused for that,
      and the refusal changes nothing. */
  lemma TlsRequiredIff(c: Config, es: seq<Event>, i: nat)
    requires i < |es|
    ensures Answered(c, es, i) == Err(TlsRequired) <==> c.requireTls && !c.secure && es[i].reading.Greeting?
    ensures Answered(c, es, i) == Err(TlsRequired) ==> Reached(c, es, i + 1) == Reached(c, es, i)
  {
    RunStep(c, es, i);
    SaneRun(c, es, i);
  }

  /** A startup message that is not refused makes the client unready until it has authenticated; it
      succeeds exactly if the protocol version is agreed on and the mechanisms are sent.  Messages that
      are none of a startup do nothing. */
  lemma OtherMessages(c: Config, es: seq<Event>, i: nat)
    requires i < |es| && c.scram && !es[i].reading.Credentials?
    ensures var a, s, t := es[i].answers, Reached(c, es, i), Reached(c, es, i + 1);
      && t.state == s.state && t.steps == s.steps && t.session == s.session
      && (es[i].reading.Irrelevant? ==> Answered(c, es, i) == Ok(()) && t.ready == s.ready)
      && (es[i].reading.Greeting? && !(c.requireTls && !c.secure) ==>
            && (Answered(c, es, i).Ok? <==> a.protocolAgreed && a.mechanismsSent)
            && (a.protocolAgreed ==> !t.ready && (!a.mechanismsSent ==> Answered(c, es, i) == Err(SendFailed)))
            && (!a.protocolAgreed ==> t == s && Answered(c, es, i) == Err(NegotiationBroken)))
  {
    RunStep(c, es, i);
    SaneRun(c, es, i);
    OnlyPasswordsCount(c, Reached(c, es, i), es[i]);
    if Reached(c, es, i).ready {
      SentIsFar(c, Reached(c, es, i).steps);
    }
  }

  // ---------- Failures ---------------------------------------------------

  lemma InvalidStateIsDone(c: Config, es: seq<Event>, j: nat)
    requires c.scram && IsPassword(es, j)
    ensures Answered(c, es, j) == Err(InvalidState) <==> Reached(c, es, j).state.Done?
  {
    SaneRun(c, es, j);
    OnlyPasswordsCount(c, Reached(c, es, j), es[j]);
    RunStep(c, es, j);
  }

  /** A password message is refused as out of state exactly when it is the third or a later one, or the
      second one after a first that did not start an exchange; so the first never is. */
  lemma InvalidStateIff(c: Config, es: seq<Event>, i: nat, j: nat)
    requires c.scram && FirstPassword(es, i) && IsPassword(es, j)
    ensures Answered(c, es, j) == Err(InvalidState) <==>
      i < j && (!NextPassword(es, i, j) || es[i].reading.started.Err?)
  {
    var k := StateOfRun(c, es, j);
    assert i < j ==> k == i;
    InvalidStateIsDone(c, es, j);
  }

  /** The first password message of a run starts an exchange but sending the answer fails. */
  predicate ContinueLost(es: seq<Event>, i: int) {
    FirstPassword(es, i) && es[i].reading.started.Ok? && !es[i].answers.continueSent
  }

  /** What handling a password message comes to. */
  lemma PasswordAnswer(c: Config, es: seq<Event>, i: nat)
    requires c.scram && IsPassword(es, i)
    ensures ContinueLost(es, i) ==> Answered(c, es, i) == Err(SendFailed)
    ensures Answered(c, es, i).Err? ==> (Reached(c, es, i + 1).state.Done? <==> !ContinueLost(es, i))
  {
    SaneRun(c, es, i);
    var first := StateOfRun(c, es, i);
    OnlyPasswordsCount(c, Reached(c, es, i), es[i]);
    RunStep(c, es, i);
  }

  lemma {:induction false} NextPasswordFrom(es: seq<Event>, i: int, j: int) returns (k: int)
    requires i < j && IsPassword(es, j)
    ensures k <= j && NextPassword(es, i, k)
    decreases j
  {
    if l :| i < l < j && IsPassword(es, l) {
      k := NextPasswordFrom(es, i, l);
    } else {
      k := j;
    }
  }

  /** Every outcome of the first password message by its condition. */
  lemma FirstOutcome(c: Config, es: seq<Event>, i: nat)
    requires c.scram && FirstPassword(es, i)
    ensures var started := es[i].reading.started;
      && (Answered(c, es, i).Ok? <==> started.Ok? && es[i].answers.continueSent)
      && (forall e :: Answered(c, es, i) == Err(e) <==>
            started == Err(e) || (started.Ok? && !es[i].answers.continueSent && e == SendFailed))
  {
    var k := StateOfRun(c, es, i);
    SaneRun(c, es, i);
    RunStep(c, es, i);
    OnlyPasswordsCount(c, Reached(c, es, i), es[i]);
  }

  /** Every failure of the second password message by its condition, and how far it gets. */
  lemma SecondFailuresIff(c: Config, es: seq<Event>, i: nat, j: nat, x: Exchange)
    requires c.scram && FirstPassword(es, i) && NextPassword(es, i, j) && es[i].reading.started == Ok(x)
    ensures var a, response, r := es[j].answers, es[j].reading.response, Answered(c, es, j);
      var verified := response.Some? && Verify(c.crypto, x, response.value).Ok?;
      && (r == Err(BadMessage) <==> response.None?)
      && (forall e :: r == Err(Refused(e)) <==> response.Some? && Verify(c.crypto, x, response.value) == Err(e))
      && (r == Err(PythonRaised) <==> verified && c.factory && !a.sessionOpened)
      && (r == Err(SendFailed) <==> verified && (c.factory ==> a.sessionOpened) && !a.finalSent)
      && (r == Err(FinishFailed) <==>
            verified && (c.factory ==> a.sessionOpened) && a.finalSent && !a.finished)
      && Reached(c, es, j + 1).steps == Script(c.factory)[..
           if !verified then 1 else if c.factory && !a.sessionOpened then 2
           else (if c.factory then 3 else 2) + if !a.finalSent then 0 else if !a.finished then 1 else 2]
  {
    var k := StateOfRun(c, es, j);
    SaneRun(c, es, j);
    RunStep(c, es, j);
    OnlyPasswordsCount(c, Reached(c, es, j), es[j]);
  }

  /** When handling a password message fails, all later ones are refused as out of state, unless it
      was the first, it started an exchange, and all that failed was sending the answer; then the
      next password message is not. */
  lemma FailureIsFinalIff(c: Config, es: seq<Event>, i: nat)
    requires c.scram && IsPassword(es, i) && Answered(c, es, i).Err?
    ensures (forall j: nat :: i < j && IsPassword(es, j) ==> Answered(c, es, j) == Err(InvalidState))
       <==> (ContinueLost(es, i) ==> forall j :: i < j ==> !IsPassword(es, j))
  {
    var first := StateOfRun(c, es, i + 1);
    PasswordAnswer(c, es, i);
    forall j: nat | i < j && IsPassword(es, j) && !ContinueLost(es, i) ensures Answered(c, es, j) == Err(InvalidState) {
      InvalidStateIff(c, es, first, j);
    }
    if ContinueLost(es, i) {
      if j :| i < j && IsPassword(es, j) {
        var k := NextPasswordFrom(es, i, j);
        InvalidStateIff(c, es, i, k);
      }
    }
  }

  // ---------- Authentication ---------------------------------------------

  /** The first two password messages of the run start and complete the exchange `x`. */
  ghost predicate Authenticates(c: Config, es: seq<Event>, i: int, j: int, x: Exchange) {
    && FirstPassword(es, i) && NextPassword(es, i, j)
    && es[i].reading.started == Ok(x) && Completes(c, es, j, x)
  }

  lemma VerifiedStep(c: Config, es: seq<Event>, n: nat)
    requires n < |es| && c.scram
    ensures var s := Reached(c, es, n);
      |Reached(c, es, n + 1).steps| >= 2 <==>
        |s.steps| >= 2 || (s.state.ServerFirstSent? && Completes(c, es, n, s.state.exchange))
  {
    SaneRun(c, es, n);
    OnlyPasswordsCount(c, Reached(c, es, n), es[n]);
    RunStep(c, es, n);
  }

  /** The exchange that a message can complete is the one the first password message started, and only
      the second password message can complete it. */
  lemma CompletesIff(c: Config, es: seq<Event>, j: nat) returns (i: int)
    requires c.scram && IsPassword(es, j)
    ensures var s := Reached(c, es, j).state;
      && (s.ServerFirstSent? && Completes(c, es, j, s.exchange) ==> Authenticates(c, es, i, j, s.exchange))
      && (forall k, x :: Authenticates(c, es, k, j, x) ==> k == i && s == ServerFirstSent(x))
  {
    i := StateOfRun(c, es, j);
  }

  lemma VerifiedIsSecond(c: Config, es: seq<Event>, n: nat)
    requires n <= |es| && c.scram
    ensures Verified in Reached(c, es, n).steps <==> |Reached(c, es, n).steps| >= 2
  {
    SaneRun(c, es, n);
    var steps := Reached(c, es, n).steps;
    assert |steps| >= 2 ==> steps[1] == Verified;
    assert |steps| < 2 ==> steps <= [Lookup];
  }

  /** A run has verified its client exactly when its first password message started an exchange and
      its second one proved the password of that exchange. */
  lemma {:induction false} VerifiedIff(c: Config, es: seq<Event>, n: nat)
    requires n <= |es| && c.scram
    ensures Verified in Reached(c, es, n).steps <==> exists i, j, x :: j < n && Authenticates(c, es, i, j, x)
  {
    if n > 0 {
      VerifiedIff(c, es, n - 1);
      VerifiedNow(c, es, n - 1);
      AuthenticatesUpTo(c, es, n - 1);
    }
  }

  lemma AuthenticatesUpTo(c: Config, es: seq<Event>, n: nat)
    ensures (exists i, j, x :: j < n + 1 && Authenticates(c, es, i, j, x)) <==>
            (exists i, j, x :: j < n && Authenticates(c, es, i, j, x)) || exists i, x :: Authenticates(c, es, i, n, x)
  {
  }

  /** A message verifies the client if it completes the exchange of the run. */
  lemma VerifiedNow(c: Config, es: seq<Event>, j: nat)
    requires j < |es| && c.scram
    ensures Verified in Reached(c, es, j + 1).steps <==>
      Verified in Reached(c, es, j).steps || exists i, x :: Authenticates(c, es, i, j, x)
  {
    VerifiedIsSecond(c, es, j);
    VerifiedIsSecond(c, es, j + 1);
    VerifiedStep(c, es, j);
    if IsPassword(es, j) {
      var i := CompletesIff(c, es, j);
    }
  }

  lemma FinalSucceedsIff(c: Config, es: seq<Event>, j: nat)
    requires c.scram && IsPassword(es, j) && !Reached(c, es, j).state.Initial?
    ensures var a, s, t := es[j].answers, Reached(c, es, j), Reached(c, es, j + 1);
      && (Answered(c, es, j).Ok? <==>
            && s.state.ServerFirstSent? && Completes(c, es, j, s.state.exchange)
            && (c.factory ==> a.sessionOpened) && a.finalSent && a.finished)
      && (Answered(c, es, j).Ok? ==>
            t.ready && t.resources && t.session == c.factory && t.steps == Script(c.factory))
  {
    SaneRun(c, es, j);
    OnlyPasswordsCount(c, Reached(c, es, j), es[j]);
    RunStep(c, es, j);
  }

  /** The second password message succeeds exactly when the client proves the password of the exchange
      and neither the session nor the rest of the conversation fails. */
  lemma SecondSucceedsIff(c: Config, es: seq<Event>, i: nat, j: nat)
    requires c.scram && FirstPassword(es, i) && NextPassword(es, i, j)
    ensures var a := es[j].answers;
      Answered(c, es, j).Ok? <==>
        && (exists x :: Authenticates(c, es, i, j, x))
        && (c.factory ==> a.sessionOpened) && a.finalSent && a.finished
    ensures Answered(c, es, j).Ok? ==>
      var s := Reached(c, es, j + 1);
      s.ready && s.resources && s.session == c.factory && s.steps == Script(c.factory)
  {
    var k := CompletesIff(c, es, j);
    var l := StateOfRun(c, es, j);
    FinalSucceedsIff(c, es, j);
  }

  /** Whoever is ready under this method has proved the password of the very exchange that the first
      message of the run started, and so by `AcceptsIff` a real one; and has its session. */
  lemma ReadyIsVerified(c: Config, es: seq<Event>, n: nat) returns (i: int, j: int, x: Exchange)
    requires c.scram && n <= |es| && Reached(c, es, n).ready
    ensures j < n && Authenticates(c, es, i, j, x) && !x.mock
    ensures Reached(c, es, n).session == c.factory
  {
    SaneRun(c, es, n);
    SentIsFar(c, Reached(c, es, n).steps);
    VerifiedIff(c, es, n);
    i, j, x :| j < n && Authenticates(c, es, i, j, x);
    var extensions, proof := AcceptedProves(c.crypto, x, es[j].reading.response.value);
  }

  // ---------- Sessions ---------------------------------------------------

  /** Whatever the method, a message that is answered without an error leaves nobody ready without
      resources or, where there is a session factory, without a session. */
  lemma ReadyHasSession(c: Config, es: seq<Event>, i: nat)
    requires i < |es| && Answered(c, es, i).Ok?
    ensures var s := Reached(c, es, i + 1);
      s.ready ==> s.resources && s.session == c.factory
  {
    SaneRun(c, es, i);
    SaneStep(c, Reached(c, es, i), es[i]);
    RunStep(c, es, i);
  }

  /** With pgwire's own methods the client is made ready before the session is opened, and is left
      without one if opening it fails or the method itself fails after all. */
  lemma ReadyWithoutSessionIff(c: Config, es: seq<Event>, i: nat)
    requires !c.scram && i < |es| && !(c.requireTls && es[i].reading.Greeting? && !c.secure)
    ensures var s, t, a := Reached(c, es, i), Reached(c, es, i + 1), es[i].answers;
      t.ready && !t.session && c.factory <==>
        a.otherReady && !s.session && c.factory && !(a.otherOk && a.sessionOpened)
    ensures Answered(c, es, i) == Err(PythonRaised) <==>
      var a := es[i].answers;
      && a.otherOk && a.otherReady && c.factory && !Reached(c, es, i).session && !a.sessionOpened
    ensures Answered(c, es, i) == Err(PythonRaised) ==>
      var s := Reached(c, es, i + 1);
      s.ready && s.resources && !s.session && s.steps == []
  {
    SaneRun(c, es, i);
    RunStep(c, es, i);
  }

  // ---------- The unknown user -------------------------------------------

  /** An exchange of the stand-in for an unknown user beside a real one. */
  ghost predicate StandsIn(x: Exchange, y: Exchange) {
    x.mock && !y.mock && x.user == y.user && x.nonce == y.nonce && x.channelBinding == y.channelBinding
  }

  /** The same event, but for what the lookup answers: where one starts an exchange with the stand-in the
      other starts a real one. */
  ghost predicate TwinEvents(e: Event, f: Event) {
    && e.answers == f.answers.(lookup := e.answers.lookup)
    && (e.reading == f.reading
        || (&& e.reading.Credentials? && f.reading.Credentials? && e.reading.response == f.reading.response
            && e.reading.started.Ok? && f.reading.started.Ok?
            && StandsIn(e.reading.started.value, f.reading.started.value)))
  }

  /** The same status but for the exchange. */
  ghost predicate Twins(s: Status, t: Status) {
    && s == t.(state := s.state)
    && (s.state == t.state
        || (s.state.ServerFirstSent? && t.state.ServerFirstSent? && StandsIn(s.state.exchange, t.state.exchange)))
  }

  /** Event `f` completes no exchange that is waiting in `t`. */
  ghost predicate Unproved(c: Config, t: Status, f: Event) {
    f.reading.Credentials? && t.state.ServerFirstSent? && f.reading.response.Some? ==>
      Verify(c.crypto, t.state.exchange, f.reading.response.value).Err?
  }

  lemma TwinPassword(c: Config, s: Status, t: Status, e: Event, f: Event)
    requires Twins(s, t) && TwinEvents(e, f) && e.reading.Credentials? && Unproved(c, t, f)
    ensures Twins(AfterPassword(c, s, e).0, AfterPassword(c, t, f).0)
    ensures AfterPassword(c, s, e).1 == AfterPassword(c, t, f).1
  {
    if s.state.ServerFirstSent? && s.state != t.state && e.reading.response.Some? {
      MockEquivalence(c.crypto, s.state.exchange, t.state.exchange, e.reading.response.value);
    }
  }

  lemma TwinInner(c: Config, s: Status, t: Status, e: Event, f: Event)
    requires c.scram && Twins(s, t) && TwinEvents(e, f) && Unproved(c, t, f)
    ensures Twins(AfterInner(c, s, e).0, AfterInner(c, t, f).0)
    ensures AfterInner(c, s, e).1 == AfterInner(c, t, f).1
  {
    if e.reading.Credentials? {
      TwinPassword(c, s, t, e, f);
    }
  }

  lemma TwinStep(c: Config, s: Status, t: Status, e: Event, f: Event)
    requires c.scram && Twins(s, t) && TwinEvents(e, f) && Unproved(c, t, f)
    ensures Twins(After(c, s, e).0, After(c, t, f).0)
    ensures After(c, s, e).1 == After(c, t, f).1
  {
    TwinInner(c, s, t, e, f);
  }

  /** To a client that does not prove its password an unknown user looks like a known one over a whole run:
      if two runs differ only in what the lookup answers, and the second verifies nobody, they have equal
      outcomes at every message, and equal statuses up to the exchange. */
  lemma UnknownUserLooksTheSame(c: Config, es: seq<Event>, fs: seq<Event>, n: nat)
    requires c.scram && n < |es| && TwinSequences(es, fs) && Verified !in Reached(c, fs, |fs|).steps
    ensures Answered(c, es, n) == Answered(c, fs, n)
    ensures Twins(Reached(c, es, n + 1), Reached(c, fs, n + 1))
  {
    NobodyAuthenticates(c, fs);
    TwinRuns(c, es, fs, n);
    TwinRunStep(c, es, fs, n);
  }

  ghost predicate TwinSequences(es: seq<Event>, fs: seq<Event>) {
    |es| == |fs| && forall k | 0 <= k < |es| :: TwinEvents(es[k], fs[k])
  }

  /** The run verifies nobody. */
  ghost predicate Fruitless(c: Config, es: seq<Event>) {
    forall i, j, x :: !Authenticates(c, es, i, j, x)
  }

  lemma NobodyAuthenticates(c: Config, es: seq<Event>)
    requires c.scram && Verified !in Reached(c, es, |es|).steps
    ensures Fruitless(c, es)
  {
    VerifiedIff(c, es, |es|);
    forall i, j, x ensures !Authenticates(c, es, i, j, x) {
      assert NextPassword(es, i, j) ==> j < |es|;
    }
  }

  lemma {:induction false} TwinRuns(c: Config, es: seq<Event>, fs: seq<Event>, n: nat)
    requires c.scram && n <= |es| && TwinSequences(es, fs) && Fruitless(c, fs)
    ensures Twins(Reached(c, es, n), Reached(c, fs, n))
  {
    if n > 0 {
      TwinRuns(c, es, fs, n - 1);
      TwinRunStep(c, es, fs, n - 1);
    }
  }

  lemma TwinRunStep(c: Config, es: seq<Event>, fs: seq<Event>, n: nat)
    requires c.scram && n < |es| && TwinSequences(es, fs) && Fruitless(c, fs)
    requires Twins(Reached(c, es, n), Reached(c, fs, n))
    ensures Twins(Reached(c, es, n + 1), Reached(c, fs, n + 1))
    ensures Answered(c, es, n) == Answered(c, fs, n)
  {
    if IsPassword(fs, n) {
      var i := CompletesIff(c, fs, n);
    }
    TwinStep(c, Reached(c, es, n), Reached(c, fs, n), es[n], fs[n]);
    RunStep(c, es, n);
    RunStep(c, fs, n);
  }

  // ---------- In terms of the messages themselves ------------------------

  /** The client's first message `first` is well-formed, its channel binding is agreed to with `data`,
      and `x` is the exchange for whatever the lookup has found: a real one for a known user, and for
      an unknown user the stand-in derived from the name. */
  ghost predicate StartedBy(c: Config, initial: InitialResponse, a: Answers, first: ClientFirst, data: Text,
                            x: Exchange)
    requires c.crypto.Sound()
  {
    && initial.data.Some? && ValidUtf8(initial.data.value)
    && (exists authzid, user, tail ::
          && FirstParts(first.flag, authzid, user, first.nonce, tail)
          && first.gs2Header == Gs2Header(first.flag, authzid) && first.bare == BareFirst(user, first.nonce, tail)
          && initial.data.value == first.gs2Header + first.bare)
    && Negotiate(initial.mechanism, first.flag, c.Offered()) == Ok(data)
    && a.lookup.Found?
    && x == NewExchange(first, data, Encode(a.random), c.user,
                        if a.lookup.verifier.Some? then a.lookup.verifier.value
                        else MockVerifier(c.crypto, c.mockSecret, c.user, c.mockIterations),
                        a.lookup.verifier.None?)
  }

  /** An exchange is started exactly for a well-formed, negotiated first message, and then no field that
      the client must echo can contain a separator. */
  lemma StartIff(c: Config, initial: InitialResponse, a: Answers, x: Exchange)
    requires c.crypto.Sound()
    ensures Start(c, initial, a) == Ok(x) <==> exists first, data :: StartedBy(c, initial, a, first, data, x)
    ensures Start(c, initial, a) == Ok(x) ==> WellFormed(x)
  {
    if Start(c, initial, a) == Ok(x) {
      var (first, data) := Agreed(c, initial).value;
      ParseFirstIff(initial.data.value, first);
      EncodingIsPlain(a.random);
      NewExchangeIsWellFormed(first, data, Encode(a.random), c.user, x.verifier, x.mock);
      assert StartedBy(c, initial, a, first, data, x);
    }
    if first, data :| StartedBy(c, initial, a, first, data, x) {
      ParseFirstIff(initial.data.value, first);
    }
  }

  /** Each way in which no exchange is started, by its condition on the first message and the answers:
      no text, no UTF-8, no printed first message, no agreed channel binding, no answer to the lookup, in
      this order. */
  lemma StartErrorsIff(c: Config, initial: InitialResponse, a: Answers)
    requires c.crypto.Sound()
    ensures Start(c, initial, a) == Err(Refused(NoFirstMessage)) <==> initial.data.None?
    ensures Start(c, initial, a) == Err(Refused(NotUtf8)) <==> initial.data.Some? && !ValidUtf8(initial.data.value)
    ensures Start(c, initial, a) == Err(Refused(MalformedFirst)) <==>
      && initial.data.Some? && ValidUtf8(initial.data.value)
      && forall f :: ParseFirst(initial.data.value) != Ok(f)
    ensures forall name :: Start(c, initial, a) == Err(Refused(UnsupportedMechanism(name))) <==>
      && FirstMessage(initial).Some? && name == initial.mechanism
      && name != SCRAM_SHA_256 && name != SCRAM_SHA_256_PLUS
    ensures Start(c, initial, a) == Err(Refused(NegotiationFailed)) <==>
      && FirstMessage(initial).Some?
      && (initial.mechanism == SCRAM_SHA_256 || initial.mechanism == SCRAM_SHA_256_PLUS)
      && forall data :: Negotiate(initial.mechanism, FirstMessage(initial).value.flag, c.Offered()) != Ok(data)
    ensures Start(c, initial, a) == Err(PythonRaised) <==>
      && FirstMessage(initial).Some? && a.lookup.Raised?
      && exists data :: Negotiate(initial.mechanism, FirstMessage(initial).value.flag, c.Offered()) == Ok(data)
  {
    if FirstMessage(initial).Some? {
      NegotiationErrors(initial.mechanism, FirstMessage(initial).value.flag, c.Offered());
    }
    if initial.data.Some? {
      FirstErrors(initial.data.value);
    }
  }

  /** The client-first-message in a message, if it is one. */
  function FirstMessage(initial: InitialResponse): Option<ClientFirst> {
    if initial.data.None? || !ValidUtf8(initial.data.value) || ParseFirst(initial.data.value).Err? then None
    else Some(ParseFirst(initial.data.value).value)
  }

  lemma FirstErrors(text: Text)
    ensures ParseFirst(text).Ok? || ParseFirst(text) == Err(MalformedFirst)
  {
  }

  lemma NegotiationErrors(mechanism: Text, flag: Text, certificate: Option<Text>)
    ensures var known := mechanism == SCRAM_SHA_256 || mechanism == SCRAM_SHA_256_PLUS;
      var r := Negotiate(mechanism, flag, certificate);
      && (!known <==> r == Err(UnsupportedMechanism(mechanism)))
      && (known ==> r.Ok? || r == Err(NegotiationFailed))
  {
  }

  /** A user is looked up exactly once the first password message has been agreed on. */
  lemma {:induction false} LookupIff(c: Config, es: seq<Event>, n: nat)
    requires n <= |es| && c.scram
    ensures Lookup in Reached(c, es, n).steps <==>
      exists i :: i < n && FirstPassword(es, i) && LookedUp(es[i].reading.started)
  {
    if n > 0 {
      LookupIff(c, es, n - 1);
      LookupNow(c, es, n - 1);
      LookupsUpTo(es, n - 1);
    }
  }

  lemma LookupsUpTo(es: seq<Event>, n: nat)
    ensures (exists i :: i < n + 1 && FirstPassword(es, i) && LookedUp(es[i].reading.started)) <==>
            || (exists i :: i < n && FirstPassword(es, i) && LookedUp(es[i].reading.started))
            || (FirstPassword(es, n) && LookedUp(es[n].reading.started))
  {
  }

  lemma LookupNow(c: Config, es: seq<Event>, n: nat)
    requires n < |es| && c.scram
    ensures Lookup in Reached(c, es, n + 1).steps <==>
      Lookup in Reached(c, es, n).steps || (FirstPassword(es, n) && LookedUp(es[n].reading.started))
  {
    var s := Reached(c, es, n);
    var i := StateOfRun(c, es, n);
    SaneRun(c, es, n);
    RunStep(c, es, n);
    OnlyPasswordsCount(c, s, es[n]);
    assert s.steps != [] ==> s.steps[0] == Lookup;
    var t := Reached(c, es, n + 1);
    assert t.steps != [] ==> t.steps[0] == Lookup;
  }

  /** A message gets as far as the lookup if its channel binding is agreed on. */
  lemma LookedUpIff(c: Config, initial: InitialResponse, a: Answers)
    requires c.crypto.Sound()
    ensures LookedUp(Start(c, initial, a)) <==>
      && FirstMessage(initial).Some?
      && exists data :: Negotiate(initial.mechanism, FirstMessage(initial).value.flag, c.Offered()) == Ok(data)
  {
  }

  /** The exception to `FailureIsFinalIff`, told by the messages and answers alone. */
  lemma ContinueLostIff(c: Config, inputs: seq<Input>, i: nat)
    requires c.crypto.Sound() && i < |inputs|
    ensures ContinueLost(HeardAll(c, inputs), i) <==>
      var Input(m, a) := inputs[i];
      && m.Password? && (forall k | 0 <= k < i :: !inputs[k].message.Password?)
      && m.initial.Some? && Agreed(c, m.initial.value).Ok? && a.lookup.Found? && !a.continueSent
  {
    forall k: nat | k < |inputs| ensures IsPassword(HeardAll(c, inputs), k) <==> inputs[k].message.Password? {
    }
  }

  lemma HeardIs(c: Config, i: Input)
    requires c.crypto.Sound()
    ensures var Event(r, a) := Heard(c, i);
      && a == i.answers && (r.Credentials? <==> i.message.Password?) && (r.Greeting? <==> i.message.Startup?)
      && (r.Credentials? ==> r.response == i.message.response)
      && (r.Credentials? && i.message.initial.None? ==> r.started == Err(BadMessage))
      && (r.Credentials? && i.message.initial.Some? ==> r.started == Start(c, i.message.initial.value, a))
  {
  }

  /** Who authenticates, told by the messages: the first password message starts an exchange, and the next
      one completes it. */
  lemma AuthenticatesIff(c: Config, inputs: seq<Input>, i: nat, j: nat, x: Exchange)
    requires c.crypto.Sound() && i < j < |inputs|
    ensures Authenticates(c, HeardAll(c, inputs), i, j, x) <==>
      && inputs[i].message.Password? && inputs[j].message.Password?
      && (forall k | 0 <= k < j && k != i :: !inputs[k].message.Password?)
      && inputs[i].message.initial.Some? && inputs[j].message.response.Some?
      && Start(c, inputs[i].message.initial.value, inputs[i].answers) == Ok(x)
      && Verify(c.crypto, x, inputs[j].message.response.value).Ok?
  {
    var es := HeardAll(c, inputs);
    forall k: nat | k < |inputs| ensures IsPassword(es, k) <==> inputs[k].message.Password? {
      HeardIs(c, inputs[k]);
    }
    HeardIs(c, inputs[i]);
    HeardIs(c, inputs[j]);
    AuthenticatesWhere(c, es, i, j, x);
  }

  lemma AuthenticatesWhere(c: Config, es: seq<Event>, i: nat, j: nat, x: Exchange)
    requires i < j < |es|
    ensures Authenticates(c, es, i, j, x) <==>
      && IsPassword(es, i) && (forall k | 0 <= k < j && k != i :: !IsPassword(es, k))
      && es[i].reading.started == Ok(x) && Completes(c, es, j, x)
  {
  }

  /** Whoever is ready has a stored verifier, proved its password, and echoed in the second message the
      header of the first and the data agreed on: over the PLUS mechanism the hash of the server's
      certificate, and nobody who claims that the server has none is let in where it has. */
  lemma ReadyIsBound(c: Config, inputs: seq<Input>)
    returns (i: int, j: int, x: Exchange, first: ClientFirst, data: Text)
    requires c.crypto.Sound() && c.scram && Reached(c, HeardAll(c, inputs), |inputs|).ready
    ensures 0 <= i < j < |inputs| && inputs[i].message.Password? && inputs[j].message.Password?
    ensures inputs[i].message.initial.Some? && inputs[j].message.response.Some?
    ensures var Input(m, a), response := inputs[i], inputs[j].message.response.value;
      && StartedBy(c, m.initial.value, a, first, data, x) && a.lookup == Found(Some(x.verifier))
      && Verify(c.crypto, x, response).Ok?
      && (m.initial.value.mechanism == SCRAM_SHA_256_PLUS ==> c.secure && c.certificate == Some(data))
      && (first.flag == Ascii("y") ==> !(c.secure && c.certificate.Some?))
    ensures var w := RSplitOnce(inputs[j].message.response.value, PROOF_FIELD).value.0;
      var echoed := StripPrefix(Split(w, COMMA)[0], Ascii("c="));
      echoed.Some? && Decode(echoed.value) == Some(first.gs2Header + data)
  {
    var es := HeardAll(c, inputs);
    i, j, x := ReadyIsVerified(c, es, |inputs|);
    var Input(m, a) := inputs[i];
    StartIff(c, m.initial.value, a, x);
    first, data :| StartedBy(c, m.initial.value, a, first, data, x);
    ChannelBindingIsEchoed(c.crypto, first, m.initial.value.mechanism, c.Offered(), data, Encode(a.random), c.user,
                           x.verifier, false, inputs[j].message.response.value);
  }

  /** The inputs differ at most in that one lookup finds nobody where the other finds a verifier. */
  predicate TwinInputs(i: Input, k: Input) {
    && i.message == k.message
    && (i.answers == k.answers
        || (k.answers.lookup.Found? && i.answers == k.answers.(lookup := Found(None))))
  }

  lemma StartTwins(c: Config, initial: InitialResponse, a: Answers, b: Answers)
    requires c.crypto.Sound() && b.lookup.Found? && a == b.(lookup := Found(None))
    ensures var s, t := Start(c, initial, a), Start(c, initial, b);
      s == t || (s.Ok? && t.Ok? && StandsIn(s.value, t.value))
  {
    var agreed := Agreed(c, initial);
    if agreed.Ok? && b.lookup.verifier.Some? {
      var (first, data) := agreed.value;
      StandInFor(first, data, Encode(b.random), c.user, Start(c, initial, a).value.verifier, b.lookup.verifier.value);
    }
  }

  lemma StandInFor(first: ClientFirst, data: Text, serverNonce: Text, user: Text, v: Verifier, w: Verifier)
    ensures StandsIn(NewExchange(first, data, serverNonce, user, v, true),
                     NewExchange(first, data, serverNonce, user, w, false))
  {
  }

  lemma HeardTwins(c: Config, i: Input, k: Input)
    requires c.crypto.Sound() && TwinInputs(i, k)
    ensures TwinEvents(Heard(c, i), Heard(c, k))
  {
    if i != k && i.message.Password? && i.message.initial.Some? {
      var Password(Some(initial), response) := i.message;
      FirstTwins(c, initial, response, i.answers, k.answers);
    } else if i != k {
      OtherTwins(c, i, k);
    }
  }

  lemma OtherTwins(c: Config, i: Input, k: Input)
    requires c.crypto.Sound() && TwinInputs(i, k) && !(i.message.Password? && i.message.initial.Some?)
    ensures TwinEvents(Heard(c, i), Heard(c, k))
  {
    assert Heard(c, i).reading == Heard(c, k).reading;
  }

  lemma FirstTwins(c: Config, initial: InitialResponse, response: Option<Text>, a: Answers, b: Answers)
    requires c.crypto.Sound() && b.lookup.Found? && a == b.(lookup := Found(None))
    ensures TwinEvents(Heard(c, Input(Password(Some(initial), response), a)),
                       Heard(c, Input(Password(Some(initial), response), b)))
  {
    StartTwins(c, initial, a, b);
    CredentialTwins(Event(Credentials(Start(c, initial, a), response), a),
                    Event(Credentials(Start(c, initial, b), response), b));
  }

  lemma CredentialTwins(e: Event, f: Event)
    requires e.answers == f.answers.(lookup := e.answers.lookup)
    requires e.reading.Credentials? && f.reading.Credentials? && e.reading.response == f.reading.response
    requires
      || e.reading.started == f.reading.started
      || (e.reading.started.Ok? && f.reading.started.Ok?
          && StandsIn(e.reading.started.value, f.reading.started.value))
    ensures TwinEvents(e, f)
  {
  }

  /** The same told by messages and answers: if in the second run, in which more users are known, nobody is
      verified, the two runs cannot be told apart. */
  lemma UnknownInputsLookTheSame(c: Config, inputs: seq<Input>, known: seq<Input>, n: nat)
    requires c.crypto.Sound() && c.scram && n < |inputs| == |known|
    requires forall k | 0 <= k < |inputs| :: TwinInputs(inputs[k], known[k])
    requires Verified !in Reached(c, HeardAll(c, known), |known|).steps
    ensures Answered(c, HeardAll(c, inputs), n) == Answered(c, HeardAll(c, known), n)
    ensures Twins(Reached(c, HeardAll(c, inputs), n + 1), Reached(c, HeardAll(c, known), n + 1))
  {
    HeardAllTwins(c, inputs, known);
    UnknownUserLooksTheSame(c, HeardAll(c, inputs), HeardAll(c, known), n);
  }

  lemma HeardAllTwins(c: Config, inputs: seq<Input>, known: seq<Input>)
    requires c.crypto.Sound() && |inputs| == |known|
    requires forall k | 0 <= k < |inputs| :: TwinInputs(inputs[k], known[k])
    ensures TwinSequences(HeardAll(c, inputs), HeardAll(c, known))
  {
    forall k | 0 <= k < |inputs| ensures TwinEvents(HeardAll(c, inputs)[k], HeardAll(c, known)[k]) {
      HeardTwins(c, inputs[k], known[k]);
    }
  }

  /** A run that leaves a ready client without a session: another method makes the client ready, and then
      the session fails to open. */
  lemma ReadyWithoutSessionExample(c: Config, a: Answers)
    requires c.crypto.Sound() && !c.scram && !c.requireTls && c.factory
    requires a.otherReady && a.otherOk && !a.sessionOpened
    ensures var es := HeardAll(c, [Input(Startup, a)]);
      && Answered(c, es, 0) == Err(PythonRaised)
      && Reached(c, es, 1).ready && !Reached(c, es, 1).session
  {
    ReadyWithoutSessionIff(c, HeardAll(c, [Input(Startup, a)]), 0);
  }

  // ---------- The failure that is not final ------------------------------

  /** A client whose server-first-message was stored but failed to be sent: its next password message is
      not refused, and if it proves the password it completes the startup. */
  lemma LostContinueThenReady(c: Config, es: seq<Event>, x: Exchange)
    requires c.scram && |es| == 2 && IsPassword(es, 0) && es[0].reading.started == Ok(x) && Completes(c, es, 1, x)
    requires es[1].answers.sessionOpened && es[1].answers.finalSent && es[1].answers.finished
    requires !es[0].answers.continueSent
    ensures Answered(c, es, 0) == Err(SendFailed)
    ensures Answered(c, es, 1) == Ok(()) && Reached(c, es, 2).ready
  {
    assert Authenticates(c, es, 0, 1, x);
    PasswordAnswer(c, es, 0);
    SecondSucceedsIff(c, es, 0, 1);
  }

  const EXAMPLE := Ascii("n,,n=,r=x")

  lemma PrintedIsAgreed(c: Config, flag: Text, authzid: Text, user: Text, nonce: Text, text: Text)
    requires FirstParts(flag, authzid, user, nonce, []) && text == Gs2Header(flag, authzid) + BareFirst(user, nonce, [])
    requires ValidUtf8(text) && flag == Ascii("n")
    ensures Agreed(c, InitialResponse(SCRAM_SHA_256, Some(text))).Ok?
  {
    ParsePrintedFirst(flag, authzid, user, nonce, []);
    NegotiatedIff(SCRAM_SHA_256, flag, c.Offered(), []);
  }

  lemma ExampleIsAgreed(c: Config)
    ensures Agreed(c, InitialResponse(SCRAM_SHA_256, Some(EXAMPLE))).Ok?
  {
    ExampleIsText();
    ExampleIsPrinted();
    ExampleParts();
    PrintedIsAgreed(c, Ascii("n"), [], [], Ascii("x"), EXAMPLE);
  }

  lemma ExampleIsText()
    ensures ValidUtf8(EXAMPLE)
  {
    AsciiIsText("n,,n=,r=x");
  }

  lemma ExampleParts()
    ensures FirstParts(Ascii("n"), [], [], Ascii("x"), [])
  {
    assert Ascii("n") == [110] && Ascii("x") == [120];
  }

  lemma ExampleIsPrinted()
    ensures EXAMPLE == Gs2Header(Ascii("n"), []) + BareFirst([], Ascii("x"), [])
  {
  }

  /** The exception at a concrete input: the first message `n,,n=,r=x` of an unknown user, whose answer
      is lost, and then a password message that is no final message at all. */
  lemma LostContinueExample(c: Config, a: Answers)
    requires c.crypto.Sound() && c.scram && a.lookup == Found(None) && !a.continueSent
    ensures var es := HeardAll(c, [Input(Password(Some(InitialResponse(SCRAM_SHA_256, Some(EXAMPLE))), None), a),
                                   Input(Password(None, None), a)]);
      && IsPassword(es, 0) && Answered(c, es, 0) == Err(SendFailed)
      && IsPassword(es, 1) && Answered(c, es, 1) != Err(InvalidState)
  {
    ExampleIsAgreed(c);
    LostContinueNotRefused(c, InitialResponse(SCRAM_SHA_256, Some(EXAMPLE)), a);
  }

  lemma LostContinueNotRefused(c: Config, initial: InitialResponse, a: Answers)
    requires c.crypto.Sound() && c.scram && Agreed(c, initial).Ok? && a.lookup.Found? && !a.continueSent
    ensures var es := HeardAll(c, [Input(Password(Some(initial), None), a), Input(Password(None, None), a)]);
      && IsPassword(es, 0) && Answered(c, es, 0) == Err(SendFailed)
      && IsPassword(es, 1) && Answered(c, es, 1) != Err(InvalidState)
  {
    var es := HeardAll(c, [Input(Password(Some(initial), None), a), Input(Password(None, None), a)]);
    assert IsPassword(es, 0) && IsPassword(es, 1);
    PasswordAnswer(c, es, 0);
    InvalidStateIff(c, es, 0, 1);
  }
}
