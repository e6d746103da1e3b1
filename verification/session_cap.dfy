/** Rolling session cookies and the absolute cap counted from the real sign-in. */
module SessionCap {
  import opened Options

  /** Settings, in whole seconds. */
  datatype Config = Config(maxAge: nat, absoluteMax: nat)

  const DEFAULTS: Config := Config(2592000, 7776000)
  const REFRESH_AFTER := 86400

  const AUTHENTICATED := "authenticated"

  datatype Payload = Payload(
    user: string,
    household: string,
    version: nat,
    state: string,
    amr: Option<string>,
    iat: Option<int>)

  /** A signed payload and the second it was signed in. */
  datatype Cookie = Cookie(payload: Payload, signedAt: int)

  datatype Request = Request(cookie: Option<Cookie>, bearer: bool, user: Option<string>)

  /** What the response does to the session cookie. */
  datatype Header = Untouched | Deleted | Issued(cookie: Cookie)

  /** The signature is young enough. */
  predicate SignatureLive(cfg: Config, c: Cookie, now: real) {
    now.Floor - c.signedAt <= cfg.maxAge
  }

  predicate UnderCap(cfg: Config, iat: int, now: real) {
    now - iat as real <= cfg.absoluteMax as real
  }

  /** `decode_cookie` returns a payload. */
  predicate Accepts(cfg: Config, c: Cookie, now: real) {
    SignatureLive(cfg, c, now) && (c.payload.iat.Some? ==> UnderCap(cfg, c.payload.iat.value, now))
  }

  /** `current_iat`: the sign-in time a re-issue must carry on, if the cookie is accepted. */
  function CurrentIat(cfg: Config, c: Cookie, now: real): Option<int> {
    if !Accepts(cfg, c, now) then None
    else if c.payload.iat.Some? then c.payload.iat
    else Some(c.signedAt)
  }

  function Sign(p: Payload, now: real): Cookie {
    Cookie(p, now.Floor)
  }

  /** `set_session` without a sign-in time stamps the present one. */
  function Stamped(iat: Option<int>, now: real): int {
    if iat.Some? then iat.value else now.Floor
  }

  /** The conditions under which a validated request's cookie is rolled. */
  predicate Rolls(cfg: Config, r: Request, header: Header, now: real) {
    && r.cookie.Some? && !r.bearer && header.Untouched?
    && var c := r.cookie.value;
       && SignatureLive(cfg, c, now)
       && c.payload.state == AUTHENTICATED && r.user == Some(c.payload.user)
       && c.payload.iat.Some? && UnderCap(cfg, c.payload.iat.value, now)
       && now - c.signedAt as real > REFRESH_AFTER as real
  }

  /** A full session's payload. */
  function FullSession(user: string, household: string, version: nat, amr: string, iat: int): Payload {
    Payload(user, household, version, AUTHENTICATED, Some(amr), Some(iat))
  }

  /** The cookies a response sets: the session, the pending session, the pre-session token, the
      device mark with its user and version, and the form token with the user it is tied to. */
  class Response {
    var session: Header
    var pending: Header
    var preSessionDeleted: bool
    var device: Option<(string, nat)>
    var formToken: Option<string>

    constructor ()
      ensures session == pending == Untouched && !preSessionDeleted && device == None && formToken == None
    {
      session, pending, preSessionDeleted, device, formToken := Untouched, Untouched, false, None, None;
    }

    method SetSession(user: string, household: string, version: nat, amr: string, iat: Option<int>, now: real)
      modifies this
      ensures session == Issued(Cookie(FullSession(user, household, version, amr, Stamped(iat, now)), now.Floor))
      ensures session.cookie.payload ==
        Payload(user, household, version, "authenticated", Some(amr), Some(if iat.Some? then iat.value else now.Floor))
      ensures pending == Deleted && preSessionDeleted
      ensures device == Some((user, version)) && formToken == Some(user)
    {
      var stamp := now.Floor;
      if iat.Some? {
        stamp := iat.value;
      }
      session := Issued(Sign(FullSession(user, household, version, amr, stamp), now));
      pending, preSessionDeleted := Deleted, true;
      device := Some((user, version));
      formToken := Some(user);
    }

    /** Re-signs the very same payload, under exactly the conditions above, or does nothing. */
    method RollSession(cfg: Config, request: Request, now: real)
      modifies this`session
      ensures Rolls(cfg, request, old(session), now) ==>
        session == Issued(Cookie(request.cookie.value.payload, now.Floor)) && Accepts(cfg, session.cookie, now)
      ensures !Rolls(cfg, request, old(session), now) ==> session == old(session)
      ensures session != old(session) <==>
        && old(session) == Untouched && !request.bearer && request.cookie.Some?
        && var c := request.cookie.value;
           && now.Floor - c.signedAt <= cfg.maxAge && now - c.signedAt as real > 86400.0
           && c.payload.state == "authenticated" && request.user == Some(c.payload.user)
           && c.payload.iat.Some? && now - c.payload.iat.value as real <= cfg.absoluteMax as real
      ensures session != old(session) ==> session == Issued(Cookie(request.cookie.value.payload, now.Floor))
    {
      if request.cookie.None? || request.bearer {
        return;
      }
      if session != Untouched {
        return;
      }
      var c := request.cookie.value;
      if now.Floor - c.signedAt > cfg.maxAge {
        return;
      }
      if c.payload.state != AUTHENTICATED || request.user != Some(c.payload.user) {
        return;
      }
      if c.payload.iat.None? || now - c.payload.iat.value as real > cfg.absoluteMax as real {
        return;
      }
      if now - c.signedAt as real <= REFRESH_AFTER as real {
        return;
      }
      session := Issued(Sign(c.payload, now));
    }
  }

  // ---- Every run of sign-ins, rolls and re-issues ----

  /** A cookie handed out, and when the sign-in it descends from really happened. */
  datatype Session = Session(cookie: Cookie, signIn: real)

  /** Cookies are numbered by the order they were handed out in. */
  datatype Event =
    | SignIn(user: string, household: string, version: nat, amr: string, at: real)
    | SignInWithoutIat(user: string, household: string, version: nat, at: real)
    | Reissue(from: nat, household: string, version: nat, amr: string, checkedAt: real, iatAt: real, setAt: real)
    | Roll(from: nat, request: Request, at: real)

  datatype System = System(sessions: seq<Session>, now: real)

  function TimeOf(e: Event): real {
    match e
    case SignIn(_, _, _, _, at) => at
    case SignInWithoutIat(_, _, _, at) => at
    case Reissue(_, _, _, _, _, _, setAt) => setAt
    case Roll(_, _, at) => at
  }

  /** A re-issue follows the route's own check of the cookie; the sign-in time is read after
      that check and the new cookie is signed after that; other steps may fall in between. */
  predicate Enabled(cfg: Config, s: System, e: Event) {
    match e
    case SignIn(_, _, _, _, at) => s.now <= at
    case SignInWithoutIat(_, _, _, at) => s.now <= at
    case Reissue(from, _, _, _, checkedAt, iatAt, setAt) =>
      && from < |s.sessions| && s.now <= setAt
      && s.sessions[from].cookie.signedAt as real <= checkedAt <= iatAt <= setAt
      && Accepts(cfg, s.sessions[from].cookie, checkedAt)
    case Roll(from, request, at) =>
      from < |s.sessions| && s.now <= at && request.cookie == Some(s.sessions[from].cookie)
      && Rolls(cfg, request, Untouched, at)
  }

  function NewSession(cfg: Config, s: System, e: Event): Session
    requires Enabled(cfg, s, e)
  {
    match e
    case SignIn(user, household, version, amr, at) =>
      Session(Sign(FullSession(user, household, version, amr, Stamped(None, at)), at), at)
    case SignInWithoutIat(user, household, version, at) =>
      Session(Sign(Payload(user, household, version, AUTHENTICATED, None, None), at), at)
    case Reissue(from, household, version, amr, _, iatAt, setAt) =>
      var source := s.sessions[from];
      var iat := Stamped(CurrentIat(cfg, source.cookie, iatAt), setAt);
      Session(Sign(FullSession(source.cookie.payload.user, household, version, amr, iat), setAt), source.signIn)
    case Roll(from, _, at) => Session(Sign(s.sessions[from].cookie.payload, at), s.sessions[from].signIn)
  }

  function Next(cfg: Config, s: System, e: Event): System
    requires Enabled(cfg, s, e)
  {
    System(s.sessions + [NewSession(cfg, s, e)], TimeOf(e))
  }

  /** The cookie tells the truth about its sign-in: its `iat`, or without one its signature. */
  predicate Truthful(x: Session) {
    && (if x.cookie.payload.iat.Some? then x.cookie.payload.iat.value else x.cookie.signedAt) == x.signIn.Floor
    && x.signIn.Floor <= x.cookie.signedAt
  }

  ghost predicate Invariant(s: System) {
    forall i :: 0 <= i < |s.sessions| ==> Truthful(s.sessions[i])
  }

  /** The step does not read the sign-in time of a cookie that has just run out. */
  predicate ReadsInTime(cfg: Config, s: System, e: Event) {
    e.Reissue? && e.from < |s.sessions| ==> Accepts(cfg, s.sessions[e.from].cookie, e.iatAt)
  }

  /** A step keeps cookies truthful exactly when it reads the sign-in time in time: a re-issue
      whose cookie runs out between the check and the reading starts the cap anew. */
  lemma StepKeepsTruthIff(cfg: Config, s: System, e: Event)
    requires cfg.absoluteMax > 0 && Invariant(s) && Enabled(cfg, s, e)
    ensures Invariant(Next(cfg, s, e)) <==> ReadsInTime(cfg, s, e)
  {
    var x := NewSession(cfg, s, e);
    var t := Next(cfg, s, e);
    assert t.sessions[|s.sessions|] == x;
    forall i | 0 <= i < |s.sessions|
      ensures Truthful(t.sessions[i])
    {
      assert t.sessions[i] == s.sessions[i];
    }
    if e.Reissue? {
      RunsOutLater(cfg, s.sessions[e.from], e.iatAt, e.setAt);
    }
    assert Invariant(t) <==> Truthful(x);
  }

  /** A truthful cookie that is no longer accepted was signed in in an earlier second. */
  lemma RunsOutLater(cfg: Config, x: Session, iatAt: real, setAt: real)
    requires cfg.absoluteMax > 0 && Truthful(x) && x.cookie.signedAt as real <= iatAt <= setAt
    ensures Accepts(cfg, x.cookie, iatAt) || setAt.Floor != x.signIn.Floor
  {
  }

  ghost predicate IsRun(cfg: Config, s: System, events: seq<Event>)
    decreases |events|
  {
    events == [] || (Enabled(cfg, s, events[0]) && IsRun(cfg, Next(cfg, s, events[0]), events[1..]))
  }

  ghost function Final(cfg: Config, s: System, events: seq<Event>): System
    requires IsRun(cfg, s, events)
    decreases |events|
  {
    if events == [] then s else Final(cfg, Next(cfg, s, events[0]), events[1..])
  }

  ghost predicate AlwaysInTime(cfg: Config, s: System, events: seq<Event>)
    requires IsRun(cfg, s, events)
    decreases |events|
  {
    events == [] || (ReadsInTime(cfg, s, events[0]) && AlwaysInTime(cfg, Next(cfg, s, events[0]), events[1..]))
  }

  lemma {:induction false} RunKeepsTruth(cfg: Config, s: System, events: seq<Event>)
    requires cfg.absoluteMax > 0 && Invariant(s) && IsRun(cfg, s, events) && AlwaysInTime(cfg, s, events)
    ensures Invariant(Final(cfg, s, events))
    decreases |events|
  {
    hide Invariant, Enabled, Next, ReadsInTime;
    if events != [] {
      StepKeepsTruthIff(cfg, s, events[0]);
      RunKeepsTruth(cfg, Next(cfg, s, events[0]), events[1..]);
    }
  }

  /** However often a cookie is rolled or re-issued, a cookie accepted at `now` descends from a
      real sign-in at most the absolute cap ago. A cookie without an `iat` is bounded by the
      signature alone, exactly by `maxAge`, so it keeps to the cap when that is the smaller. */
  lemma CapHolds(cfg: Config, start: real, events: seq<Event>, i: nat, now: real)
    requires cfg.absoluteMax > 0
    requires IsRun(cfg, System([], start), events) && AlwaysInTime(cfg, System([], start), events)
    requires i < |Final(cfg, System([], start), events).sessions|
    ensures var x := Final(cfg, System([], start), events).sessions[i];
      && (x.cookie.payload.iat.Some? || cfg.maxAge < cfg.absoluteMax ==>
            Accepts(cfg, x.cookie, now) ==> now - x.signIn <= cfg.absoluteMax as real)
      && (x.cookie.payload.iat.None? ==>
            (Accepts(cfg, x.cookie, now) <==> now.Floor - x.signIn.Floor <= cfg.maxAge))
      && (x.cookie.payload.iat.Some? ==>
            (Accepts(cfg, x.cookie, now) <==>
               now.Floor - x.cookie.signedAt <= cfg.maxAge && now - x.signIn.Floor as real <= cfg.absoluteMax as real))
  {
    RunKeepsTruth(cfg, System([], start), events);
    hide IsRun, Final, AlwaysInTime;
    var x := Final(cfg, System([], start), events).sessions[i];
    assert Truthful(x);
  }

  /** The step is a sign-in of `user` at `at`. */
  predicate SignsIn(e: Event, user: string, at: real) {
    (e.SignIn? || e.SignInWithoutIat?) && e.user == user && e.at == at
  }

  ghost predicate HasSession(s: System, user: string, at: real) {
    exists i :: 0 <= i < |s.sessions| && s.sessions[i].cookie.payload.user == user && s.sessions[i].signIn == at
  }

  lemma StepKeepsUsers(cfg: Config, s: System, e: Event, user: string, at: real)
    requires Enabled(cfg, s, e) && HasSession(Next(cfg, s, e), user, at)
    ensures HasSession(s, user, at) || SignsIn(e, user, at)
  {
    var t := Next(cfg, s, e);
    var i :| 0 <= i < |t.sessions| && t.sessions[i].cookie.payload.user == user && t.sessions[i].signIn == at;
    if i < |s.sessions| {
      assert t.sessions[i] == s.sessions[i];
    } else {
      assert t.sessions[i] == NewSession(cfg, s, e);
    }
  }

  lemma {:induction false} RunKeepsUsers(cfg: Config, s: System, events: seq<Event>, user: string, at: real)
    requires IsRun(cfg, s, events) && HasSession(Final(cfg, s, events), user, at)
    ensures HasSession(s, user, at) || exists e :: e in events && SignsIn(e, user, at)
    decreases |events|
  {
    hide Enabled, Next, HasSession, SignsIn;
    if events != [] {
      assert events[0] in events && forall e :: e in events[1..] ==> e in events;
      RunKeepsUsers(cfg, Next(cfg, s, events[0]), events[1..], user, at);
      if HasSession(Next(cfg, s, events[0]), user, at) {
        StepKeepsUsers(cfg, s, events[0], user, at);
      }
    }
  }

  /** Over every run each cookie is of a user who signed in, at the time its cap is counted from. */
  lemma EveryCookieHasASignIn(cfg: Config, start: real, events: seq<Event>, i: nat)
    requires IsRun(cfg, System([], start), events) && i < |Final(cfg, System([], start), events).sessions|
    ensures var x := Final(cfg, System([], start), events).sessions[i];
      exists e :: e in events && (e.SignIn? || e.SignInWithoutIat?) && e.user == x.cookie.payload.user && e.at == x.signIn
  {
    hide IsRun, Final;
    var x := Final(cfg, System([], start), events).sessions[i];
    assert HasSession(Final(cfg, System([], start), events), x.cookie.payload.user, x.signIn);
    RunKeepsUsers(cfg, System([], start), events, x.cookie.payload.user, x.signIn);
    assert !HasSession(System([], start), x.cookie.payload.user, x.signIn);
    var e :| e in events && SignsIn(e, x.cookie.payload.user, x.signIn);
  }

  // ---- A re-issue that reads too late ----

  /** Going on from `s` in time, some cookie is accepted longer after its sign-in than the cap. */
  ghost predicate Outlives(cfg: Config, s: System, events: seq<Event>, i: nat, now: real) {
    && IsRun(cfg, s, events) && AlwaysInTime(cfg, s, events)
    && var t := Final(cfg, s, events);
       && i < |t.sessions| && t.now <= now
       && Accepts(cfg, t.sessions[i].cookie, now) && now - t.sessions[i].signIn > cfg.absoluteMax as real
  }

  /** The browser sends a cookie for a signed-in page. */
  function PageRequest(c: Cookie): Request {
    Request(Some(c), false, Some(c.payload.user))
  }

  /** The cookie is a full session with an `iat`, and no more than a refresh period behind. */
  predicate Rollable(s: System, i: nat) {
    && i < |s.sessions|
    && s.sessions[i].cookie.payload.state == AUTHENTICATED && s.sessions[i].cookie.payload.iat.Some?
    && s.now <= (s.sessions[i].cookie.signedAt + REFRESH_AFTER + 1) as real
  }

  /** Rolled a second after each refresh period, a cookie lives for as long as its cap lets it. */
  lemma {:induction false} KeepRolling(cfg: Config, s: System, i: nat, target: int) returns (events: seq<Event>, j: nat)
    requires REFRESH_AFTER < cfg.maxAge && Rollable(s, i)
    requires s.now <= target as real && target - s.sessions[i].cookie.payload.iat.value <= cfg.absoluteMax
    ensures IsRun(cfg, s, events) && AlwaysInTime(cfg, s, events)
    ensures var t := Final(cfg, s, events);
      && j < |t.sessions| && t.now <= target as real && t.sessions[j].signIn == s.sessions[i].signIn
      && Accepts(cfg, t.sessions[j].cookie, target as real)
    decreases target - s.sessions[i].cookie.signedAt
  {
    var c := s.sessions[i].cookie;
    if target - c.signedAt <= cfg.maxAge {
      events, j := [], i;
    } else {
      var at := c.signedAt + REFRESH_AFTER + 1;
      var e := Roll(i, PageRequest(c), at as real);
      var t := Next(cfg, s, e);
      assert t.sessions[|s.sessions|] == Session(Cookie(c.payload, at), s.sessions[i].signIn);
      var rest, k := KeepRolling(cfg, t, |s.sessions|, target);
      FirstThen(cfg, s, e, rest);
      events, j := [e] + rest, k;
    }
  }

  /** A re-issue that reads too late stamps a second after the one of the sign-in. */
  lemma LateReissueStamps(cfg: Config, s: System, e: Event)
    requires cfg.absoluteMax > 0 && Invariant(s) && Enabled(cfg, s, e) && !ReadsInTime(cfg, s, e)
    ensures Next(cfg, s, e).sessions[|s.sessions|] == NewSession(cfg, s, e)
    ensures var x := NewSession(cfg, s, e);
      && x.cookie.payload.iat == Some(x.cookie.signedAt) && Rollable(Next(cfg, s, e), |s.sessions|)
      && x.cookie.signedAt as real <= TimeOf(e) < (x.cookie.signedAt + 1) as real
      && x.signIn < x.cookie.signedAt as real
  {
    assert Truthful(s.sessions[e.from]);
    RunsOutLater(cfg, s.sessions[e.from], e.iatAt, e.setAt);
  }

  /** From any truthful state, a late re-issue can be followed to a cookie accepted beyond the
      cap, whatever the settings, as long as cookies live longer than the refresh period. */
  lemma LateReissueOutlivesTheCap(cfg: Config, s: System, e: Event) returns (events: seq<Event>, i: nat, now: real)
    requires REFRESH_AFTER < cfg.maxAge && cfg.absoluteMax > 0
    requires Invariant(s) && Enabled(cfg, s, e) && !ReadsInTime(cfg, s, e)
    ensures Outlives(cfg, Next(cfg, s, e), events, i, now)
    ensures Final(cfg, Next(cfg, s, e), events).sessions[i].signIn == s.sessions[e.from].signIn
  {
    LateReissueStamps(cfg, s, e);
    var x := NewSession(cfg, s, e);
    var target := x.cookie.signedAt + cfg.absoluteMax;
    events, i := KeepRolling(cfg, Next(cfg, s, e), |s.sessions|, target);
    now := target as real;
  }

  /** After a run that read in time, a step opens a way past the cap exactly when it is a
      re-issue that reads too late. */
  lemma CapBreaksIff(cfg: Config, start: real, before: seq<Event>, e: Event)
    requires REFRESH_AFTER < cfg.maxAge < cfg.absoluteMax
    requires IsRun(cfg, System([], start), before) && AlwaysInTime(cfg, System([], start), before)
    requires Enabled(cfg, Final(cfg, System([], start), before), e)
    ensures var s := Final(cfg, System([], start), before);
      (exists events, i, now :: Outlives(cfg, Next(cfg, s, e), events, i, now)) <==> !ReadsInTime(cfg, s, e)
  {
    RunKeepsTruth(cfg, System([], start), before);
    hide IsRun, Final, AlwaysInTime;
    var s := Final(cfg, System([], start), before);
    if ReadsInTime(cfg, s, e) {
      StepKeepsTruthIff(cfg, s, e);
      forall events, i, now
        ensures !Outlives(cfg, Next(cfg, s, e), events, i, now)
      {
        TruthfulKeepsToTheCap(cfg, Next(cfg, s, e), events, i, now);
      }
    } else {
      var events, i, now := LateReissueOutlivesTheCap(cfg, s, e);
    }
  }

  lemma TruthfulKeepsToTheCap(cfg: Config, s: System, events: seq<Event>, i: nat, now: real)
    requires 0 < cfg.maxAge < cfg.absoluteMax && Invariant(s)
    ensures !Outlives(cfg, s, events, i, now)
  {
    if IsRun(cfg, s, events) && AlwaysInTime(cfg, s, events) && i < |Final(cfg, s, events).sessions| {
      RunKeepsTruth(cfg, s, events);
      hide IsRun, Final, AlwaysInTime;
      assert Truthful(Final(cfg, s, events).sessions[i]);
    }
  }

  lemma {:induction false} FirstThen(cfg: Config, s: System, first: Event, rest: seq<Event>)
    requires Enabled(cfg, s, first) && IsRun(cfg, Next(cfg, s, first), rest)
    ensures IsRun(cfg, s, [first] + rest)
    ensures Final(cfg, s, [first] + rest) == Final(cfg, Next(cfg, s, first), rest)
    ensures AlwaysInTime(cfg, s, [first] + rest) <==>
      ReadsInTime(cfg, s, first) && AlwaysInTime(cfg, Next(cfg, s, first), rest)
  {
    hide Enabled, Next, ReadsInTime;
    var events := [first] + rest;
    assert events[0] == first && events[1..] == rest;
  }

  /** With the default settings: a household switch whose cookie runs out between the check and
      the reading, then three rolls, leaves a cookie accepted 117 days after the sign-in. */
  lemma SwitchAtExpiryOutlivesTheCap() returns (events: seq<Event>)
    ensures IsRun(DEFAULTS, System([], 0.0), events)
    ensures var sessions := Final(DEFAULTS, System([], 0.0), events).sessions;
      && |sessions| == 5 && sessions[4].signIn == 0.0
      && Accepts(DEFAULTS, sessions[4].cookie, 10108800.0) && 10108800.0 > DEFAULTS.absoluteMax as real
  {
    var s0 := System([], 0.0);
    var e0 := SignIn("ann", "home", 1, "pwd", 0.0);
    var s1 := Next(DEFAULTS, s0, e0);
    var e1 := Reissue(0, "cottage", 1, "pwd", 2592000.0, 2592001.0, 2592001.0);
    var s2 := Next(DEFAULTS, s1, e1);
    var e2 := Roll(1, PageRequest(s2.sessions[1].cookie), 5097600.0);
    var s3 := Next(DEFAULTS, s2, e2);
    var e3 := Roll(2, PageRequest(s3.sessions[2].cookie), 7603200.0);
    var s4 := Next(DEFAULTS, s3, e3);
    var e4 := Roll(3, PageRequest(s4.sessions[3].cookie), 10108800.0);
    var s5 := Next(DEFAULTS, s4, e4);
    FirstThen(DEFAULTS, s4, e4, []);
    FirstThen(DEFAULTS, s3, e3, [e4]);
    FirstThen(DEFAULTS, s2, e2, [e3, e4]);
    FirstThen(DEFAULTS, s1, e1, [e2, e3, e4]);
    FirstThen(DEFAULTS, s0, e0, [e1, e2, e3, e4]);
    events := [e0] + [e1, e2, e3, e4];
  }
}
