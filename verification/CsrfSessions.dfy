/**
 * The anti-CSRF middleware and the login rotation: what each request does to the session and
 * the token cookie, and what holds over every run of a browser against the server.
 */
module CsrfSessions {
  import opened Wrappers
  import opened CsrfTokens

  datatype Mode = Legacy | Observe | Signed

  datatype Session = Session(pre: bool, loginOwner: Option<string>, owner: Option<string>)

  const EMPTY := Session(false, None, None)

  /** A session that the store keeps: pre-session or logged in. */
  predicate Persisted(s: Session) { s.pre || s.loginOwner.Some? || s.owner.Some? }

  /** One request and its response: the session it runs in, the token cookie it carries, and
      what the response sets (token is res.locals.xsrfToken) and echoes. */
  datatype Exchange = Exchange(sid: string, session: Session, hasSessionCookie: bool, cookieIn: Option<string>,
                               cookieOut: Option<string>, token: Option<string>, echo: Option<string>)

  function SetBound(mac: Mac, x: Exchange, nonce: string): Exchange {
    var t := Mint(mac, x.sid, nonce);
    x.(cookieOut := Some(t), token := Some(t))
  }

  function SetRandom(x: Exchange, t: string): Exchange { x.(cookieOut := Some(t), token := Some(t)) }

  /** The global middleware, on a request a browser could use the token on. */
  function Ensure(mac: Mac, mode: Mode, x: Exchange, nonce: string, random: string): Exchange {
    if mode.Legacy? then
      if x.cookieIn == None || x.cookieIn == Some("") then SetRandom(x, random) else x
    else if Persisted(x.session) && Check(mac, x.cookieIn, x.sid) != None then SetBound(mac, x, nonce)
    else x
  }

  /** The priming endpoint. */
  function Issue(mac: Mac, mode: Mode, x: Exchange, nonce: string): Exchange {
    if mode.Legacy? then x.(echo := if x.token.Some? && x.token != Some("") then x.token else x.cookieIn)
    else
      var x1 := if Persisted(x.session) then x else x.(session := x.session.(pre := true));
      var x2 := if x1.token.Some? then x1
                else if Check(mac, x1.cookieIn, x1.sid) == None then x1.(token := x1.cookieIn)
                else SetBound(mac, x1, nonce);
      x2.(echo := x2.token)
  }

  function Rotate(mac: Mac, mode: Mode, x: Exchange, nonce: string): Exchange {
    if mode.Legacy? then x else SetBound(mac, x, nonce)
  }

  /** A login: a regenerated session id, then the rotated token, then the owner. */
  function Establish(mac: Mac, mode: Mode, x: Exchange, sid: string, owner: string, nonce: string): Exchange {
    Rotate(mac, mode, x.(sid := sid, session := EMPTY), nonce).(session := Session(false, Some(owner), Some(owner)))
  }

  function BindingReason(mac: Mac, x: Exchange, token: Option<string>): Option<Reason> {
    if !x.hasSessionCookie then Some(Missing)
    else if !Persisted(x.session) then Some(SessionMismatch)
    else Check(mac, token, x.sid)
  }

  /** How a request authenticated itself before the guard. */
  datatype Auth = NoAuth | Bearer | ApiKey

  predicate Exempt(x: Exchange, auth: Auth, publicRoute: bool) {
    auth.Bearer? || (auth.ApiKey? && !x.hasSessionCookie && !publicRoute)
  }

  predicate DoubleSubmit(x: Exchange, header: Option<string>) {
    x.cookieIn.Some? && x.cookieIn.value != "" && header == x.cookieIn
  }

  /** verifyCsrfToken with verifyBinding: whether the guarded handler runs. */
  predicate Verify(mac: Mac, mode: Mode, enforced: bool, x: Exchange, auth: Auth, publicRoute: bool,
                   header: Option<string>) {
    if Exempt(x, auth, publicRoute) then true
    else if DoubleSubmit(x, header) then
      if mode.Legacy? then true
      else if BindingReason(mac, x, header) == None then true
      else if mode.Observe? then true
      else !enforced
    else if mode.Signed? && header.Some? && header.value != "" && BindingReason(mac, x, header) == None then true
    else !enforced
  }

  // ---------------------------------------------------------------- the guard

  /** Enforced legacy mode lets a request through exactly when it is exempt or its header repeats
      its non-empty token cookie. */
  lemma LegacyPassesIffHeaderIsCookie(mac: Mac, x: Exchange, auth: Auth, publicRoute: bool, header: Option<string>)
    ensures Verify(mac, Legacy, true, x, auth, publicRoute, header)
       <==> (Exempt(x, auth, publicRoute) || (header.Some? && header.value != "" && x.cookieIn == header))
  {
  }

  /** Observe mode lets through exactly what legacy lets through. */
  lemma ObserveAcceptsWhatLegacyAccepts(mac: Mac, enforced: bool, x: Exchange, auth: Auth, publicRoute: bool,
                                        header: Option<string>)
    ensures Verify(mac, Observe, enforced, x, auth, publicRoute, header) <==>
      Verify(mac, Legacy, enforced, x, auth, publicRoute, header)
  {
  }

  /** Enforced signed mode lets a request through exactly when it carries a verified bearer token, is
      a cookieless call with an API key off the public routes, or its header binds to its own session
      that is logged in or primed, whatever the token cookie says. */
  lemma SignedPassesIffHeaderBinds(mac: Mac, x: Exchange, auth: Auth, publicRoute: bool, header: Option<string>)
    ensures Verify(mac, Signed, true, x, auth, publicRoute, header)
       <==> (|| auth == Bearer
             || (auth == ApiKey && !x.hasSessionCookie && !publicRoute)
             || (&& x.hasSessionCookie
                 && (x.session.pre || x.session.loginOwner != None || x.session.owner != None)
                 && Check(mac, header, x.sid) == None))
  {
    if header == Some("") {
      assert !SignedShape("");
    }
  }

  /** In every mode: a bearer token is enough; an API key is, on a call without a session cookie off
      the public routes, and anywhere else counts for nothing. */
  lemma KeysExemptOnlyCookielessCalls(mac: Mac, mode: Mode, enforced: bool, x: Exchange, publicRoute: bool,
                                      header: Option<string>)
    ensures Verify(mac, mode, enforced, x, Bearer, publicRoute, header)
    ensures Verify(mac, mode, enforced, x, ApiKey, publicRoute, header)
       <==> (!x.hasSessionCookie && !publicRoute) || Verify(mac, mode, enforced, x, NoAuth, publicRoute, header)
    ensures !enforced ==> Verify(mac, mode, enforced, x, NoAuth, publicRoute, header)
    ensures Verify(mac, mode, enforced, x, NoAuth, true, header)
      == Verify(mac, mode, enforced, x, NoAuth, false, header)
  {
  }

  // ---------------------------------------------------------------- the handlers

  /** The middleware's request and response objects. */
  class Handler {
    const mac: Mac
    const mode: Mode
    var sid: string
    var session: Session
    const hasSessionCookie: bool
    const cookieIn: Option<string>
    var cookieOut: Option<string>
    var token: Option<string>
    var echo: Option<string>

    constructor (mac: Mac, mode: Mode, x: Exchange)
      ensures State() == x && this.mac == mac && this.mode == mode
    {
      this.mac, this.mode := mac, mode;
      sid, session, hasSessionCookie, cookieIn := x.sid, x.session, x.hasSessionCookie, x.cookieIn;
      cookieOut, token, echo := x.cookieOut, x.token, x.echo;
    }

    function State(): Exchange
      reads this
    {
      Exchange(sid, session, hasSessionCookie, cookieIn, cookieOut, token, echo)
    }

    method SetBoundToken(nonce: string) returns (t: string)
      modifies this
      ensures State() == SetBound(mac, old(State()), nonce) && token == Some(t)
    {
      t := Mint(mac, sid, nonce);
      cookieOut := Some(t);
      token := Some(t);
    }

    method EnsureXsrfCookie(nonBrowser: bool, nonce: string, random: string)
      modifies this
      ensures State() == if nonBrowser then old(State()) else Ensure(mac, mode, old(State()), nonce, random)
    {
      if nonBrowser {
        return;
      }
      if mode != Legacy {
        if Persisted(session) {
          if Check(mac, cookieIn, sid) != None {
            var _ := SetBoundToken(nonce);
          }
        }
        return;
      }
      if cookieIn == None || cookieIn == Some("") {
        cookieOut := Some(random);
        token := Some(random);
      }
    }

    method IssueCsrfToken(nonce: string)
      modifies this
      ensures State() == Issue(mac, mode, old(State()), nonce)
    {
      if mode == Legacy {
        echo := if token.Some? && token != Some("") then token else cookieIn;
        return;
      }
      if !Persisted(session) {
        session := session.(pre := true);
      }
      if token == None {
        if Check(mac, cookieIn, sid) == None {
          token := cookieIn;
        } else {
          var _ := SetBoundToken(nonce);
        }
      }
      echo := token;
    }

    /** establishSession: regenerate, rotate, and only then an owner. Nothing is written when the
        store cannot regenerate. */
    method EstablishSession(regenerated: Option<string>, owner: string, nonce: string) returns (ok: bool)
      modifies this
      ensures ok == regenerated.Some?
      ensures State() == if regenerated == None then old(State())
                         else Establish(mac, mode, old(State()), regenerated.value, owner, nonce)
    {
      if regenerated == None {
        return false;
      }
      sid := regenerated.value;
      session := EMPTY;
      if mode != Legacy {
        var _ := SetBoundToken(nonce);
      }
      session := session.(owner := Some(owner));
      session := session.(loginOwner := Some(owner));
      return true;
    }
  }

  // ---------------------------------------------------------------- runs

  /** The store, every session id ever handed out, and one browser: its session cookie and its
      one token cookie. */
  datatype World = World(sessions: map<string, Session>, used: set<string>, sid: Option<string>, cookie: Option<string>)

  /** Each request names the id a new session would get and the nonces it would draw. */
  datatype Event =
    | Visit(anon: string, nonce: string)
    | Prime(anon: string, nonce: string, nonce2: string)
    | Login(anon: string, newSid: string, owner: string, nonce: string, nonce2: string)
    | Post(anon: string, nonce: string)
    | Expire(gone: string)

  /** The session a request runs in: the cookie's, when the store still has it, else a new one. */
  function Open(w: World, anon: string): Exchange {
    var known := w.sid.Some? && w.sid.value in w.sessions;
    Exchange(if known then w.sid.value else anon, if known then w.sessions[w.sid.value] else EMPTY,
             w.sid.Some?, w.cookie, None, None, None)
  }

  /** The store keeps the session when it is persisted, and the browser takes the cookies. */
  function Close(w: World, x: Exchange): World {
    World(if Persisted(x.session) then w.sessions[x.sid := x.session] else w.sessions, w.used + {x.sid},
          if Persisted(x.session) then Some(x.sid) else w.sid,
          if x.cookieOut.Some? then x.cookieOut else w.cookie)
  }

  function Response(mac: Mac, mode: Mode, w: World, e: Event): Exchange {
    match e
    case Visit(anon, n) => Ensure(mac, mode, Open(w, anon), n, n)
    case Prime(anon, n, n2) => Issue(mac, mode, Ensure(mac, mode, Open(w, anon), n, n), n2)
    case Login(anon, newSid, owner, n, n2) =>
      Establish(mac, mode, Ensure(mac, mode, Open(w, anon), n, n), newSid, owner, n2)
    case Post(anon, n) => Ensure(mac, mode, Open(w, anon), n, n)
    case Expire(gone) => Open(w, gone)
  }

  predicate Possible(w: World, e: Event) {
    match e
    case Visit(anon, n) => IsFresh(w, anon) && IsNonce(n)
    case Prime(anon, n, n2) => IsFresh(w, anon) && IsNonce(n) && IsNonce(n2)
    case Login(anon, newSid, _, n, n2) =>
      IsFresh(w, anon) && IsFresh(w, newSid) && anon != newSid && IsNonce(n) && IsNonce(n2)
    case Post(anon, n) => IsFresh(w, anon) && IsNonce(n)
    case Expire(_) => true
  }

  predicate IsFresh(w: World, sid: string) { sid != "" && sid !in w.used }

  function Next(mac: Mac, mode: Mode, w: World, e: Event): World {
    if !Possible(w, e) then w
    else if e.Expire? then w.(sessions := w.sessions - {e.gone})
    else
      var x := Response(mac, mode, w, e);
      // a regenerated session replaces the old one in the store
      var base :=
        if e.Login? then w.(sessions := w.sessions - {Open(w, e.anon).sid}, used := w.used + {Open(w, e.anon).sid})
        else w;
      Close(base, x)
  }

  function After(mac: Mac, mode: Mode, w: World, events: seq<Event>): World
    decreases |events|
  {
    if events == [] then w else After(mac, mode, Next(mac, mode, w, events[0]), events[1..])
  }

  ghost predicate Known(w: World) {
    && "" !in w.sessions
    && (forall s :: s in w.sessions ==> s in w.used && Persisted(w.sessions[s]))
    && (w.sid.Some? ==> w.sid.value in w.used)
  }

  /** The browser's session is in the store. */
  predicate Alive(w: World) { w.sid.Some? && w.sid.value in w.sessions }

  /** The browser's token is bound to its own live session. */
  ghost predicate Settled(mac: Mac, w: World) { Alive(w) ==> Check(mac, w.cookie, w.sid.value) == None }

  lemma ResponseBinds(mac: Mac, mode: Mode, w: World, e: Event)
    requires Shaped(mac) && mode != Legacy && Known(w) && Possible(w, e) && !e.Expire?
    ensures var x := Response(mac, mode, w, e);
      && x.sid != ""
      && (Persisted(x.session) ==> Check(mac, if x.cookieOut.Some? then x.cookieOut else w.cookie, x.sid) == None)
      && (e.Prime? ==> Persisted(x.session) && x.echo.Some?
                       && x.echo == if x.cookieOut.Some? then x.cookieOut else w.cookie)
  {
    var o := Open(w, e.anon);
    MintedPasses(mac, o.sid, e.nonce);
    if e.Prime? {
      MintedPasses(mac, o.sid, e.nonce2);
    } else if e.Login? {
      MintedPasses(mac, e.newSid, e.nonce2);
    }
  }

  /** Whatever the browser held before, one request settles it, and nothing unsettles it. */
  lemma NextSettles(mac: Mac, mode: Mode, w: World, e: Event)
    requires Shaped(mac) && mode != Legacy && Known(w)
    requires Settled(mac, w) || (Possible(w, e) && !e.Expire?)
    ensures Known(Next(mac, mode, w, e)) && Settled(mac, Next(mac, mode, w, e))
  {
    if Possible(w, e) && !e.Expire? {
      ResponseBinds(mac, mode, w, e);
      assert Open(w, e.anon).sid in w.sessions ==> Open(w, e.anon).sid == w.sid.value;
    }
  }

  lemma NextStaysKnown(mac: Mac, mode: Mode, w: World, e: Event)
    requires Known(w)
    ensures Known(Next(mac, mode, w, e))
  {
  }

  lemma {:induction false} StaysKnown(mac: Mac, mode: Mode, w: World, events: seq<Event>)
    requires Known(w)
    ensures Known(After(mac, mode, w, events))
    decreases |events|
  {
    if events != [] {
      NextStaysKnown(mac, mode, w, events[0]);
      StaysKnown(mac, mode, Next(mac, mode, w, events[0]), events[1..]);
    }
  }

  lemma {:induction false} RunStaysSettled(mac: Mac, mode: Mode, w: World, events: seq<Event>)
    requires Shaped(mac) && mode != Legacy && Known(w) && Settled(mac, w)
    ensures Known(After(mac, mode, w, events)) && Settled(mac, After(mac, mode, w, events))
    decreases |events|
  {
    if events != [] {
      NextSettles(mac, mode, w, events[0]);
      RunStaysSettled(mac, mode, Next(mac, mode, w, events[0]), events[1..]);
    }
  }

  /**
   * Main result: in observe and signed mode, after a first request and any further run, the
   * browser's token binds to its live session, and a guarded request that echoes the token
   * passes, enforced or not.
   */
  lemma LastTokenPasses(mac: Mac, mode: Mode, w: World, first: Event, events: seq<Event>, enforced: bool, anon: string)
    requires Shaped(mac) && mode != Legacy && Known(w) && Possible(w, first) && !first.Expire?
    requires Alive(After(mac, mode, Next(mac, mode, w, first), events))
    ensures var w' := After(mac, mode, Next(mac, mode, w, first), events);
      && w'.cookie.Some? && Check(mac, w'.cookie, w'.sid.value) == None
      && Verify(mac, mode, enforced, Open(w', anon), NoAuth, false, w'.cookie)
  {
    NextSettles(mac, mode, w, first);
    RunStaysSettled(mac, mode, Next(mac, mode, w, first), events);
  }

  /** Main result: in enforced signed mode, after a first request and any further run, a request of the
      browser that is no bearer call passes exactly when its header binds to the browser's live
      session, an API key in its body notwithstanding. */
  lemma CookieCallsNeedTheToken(mac: Mac, w: World, first: Event, events: seq<Event>, auth: Auth, publicRoute: bool,
                                header: Option<string>, anon: string)
    requires Known(w) && Possible(w, first) && !first.Expire? && auth != Bearer
    requires var w' := After(mac, Signed, Next(mac, Signed, w, first), events); w'.sid.Some? && IsFresh(w', anon)
    ensures var w' := After(mac, Signed, Next(mac, Signed, w, first), events);
      Verify(mac, Signed, true, Open(w', anon), auth, publicRoute, header)
      <==> w'.sid.value in w'.sessions && Check(mac, header, w'.sid.value) == None
  {
    StaysKnown(mac, Signed, w, [first] + events);
    assert ([first] + events)[1..] == events;
    var w' := After(mac, Signed, Next(mac, Signed, w, first), events);
    SignedPassesIffHeaderBinds(mac, Open(w', anon), auth, publicRoute, header);
  }

  /** A login leaves the browser a new session of that owner, and its old one gone from the store. */
  lemma LoginIs(mac: Mac, mode: Mode, w: World, login: Event)
    requires Known(w) && login.Login? && Possible(w, login)
    ensures var w' := Next(mac, mode, w, login);
      && w'.sid == Some(login.newSid) && login.newSid !in w.used
      && login.newSid in w'.sessions
      && w'.sessions[login.newSid] == Session(false, Some(login.owner), Some(login.owner))
      && (w.sid.Some? ==> w.sid.value !in w'.sessions)
  {
  }

  /** A priming answer echoes the token the browser then holds, bound to a live session. */
  lemma PrimeEchoesTheToken(mac: Mac, mode: Mode, w: World, e: Event)
    requires Shaped(mac) && mode != Legacy && Known(w) && e.Prime? && Possible(w, e)
    ensures var w' := Next(mac, mode, w, e);
      Alive(w') && Response(mac, mode, w, e).echo == w'.cookie && Check(mac, w'.cookie, w'.sid.value) == None
  {
    ResponseBinds(mac, mode, w, e);
  }

  // ---------------------------------------------------------------- legacy runs

  /** The browser holds a token. */
  predicate Holds(w: World) { w.cookie.Some? && w.cookie.value != "" }

  lemma LegacyStep(mac: Mac, w: World, e: Event)
    ensures Holds(w) ==> Next(mac, Legacy, w, e).cookie == w.cookie
    ensures Possible(w, e) && !e.Expire? ==> Holds(Next(mac, Legacy, w, e))
    ensures Possible(w, e) && e.Prime? ==> Response(mac, Legacy, w, e).echo == Next(mac, Legacy, w, e).cookie
  {
    if Possible(w, e) && !e.Expire? {
      assert IsNonce(e.nonce) && e.nonce != "";
    }
  }

  lemma {:induction false} LegacyRun(mac: Mac, w: World, events: seq<Event>)
    requires Holds(w)
    ensures After(mac, Legacy, w, events).cookie == w.cookie
    decreases |events|
  {
    if events != [] {
      LegacyStep(mac, w, events[0]);
      LegacyRun(mac, Next(mac, Legacy, w, events[0]), events[1..]);
    }
  }

  /**
   * Main result on legacy mode, where no login rotates the token: after a first request and any
   * further run, logins included, an enforced guard lets a request of the browser's session
   * through if and only if its header is the very token the browser held after that first request,
   * which a priming answer has echoed.
   */
  lemma LegacyTokenNeverChanges(mac: Mac, w: World, first: Event, events: seq<Event>, header: Option<string>,
                                anon: string)
    requires Possible(w, first) && !first.Expire?
    ensures var w1 := Next(mac, Legacy, w, first);
      var w' := After(mac, Legacy, w1, events);
      && (Verify(mac, Legacy, true, Open(w', anon), NoAuth, false, header) <==> header == w1.cookie)
      && (first.Prime? ==> Response(mac, Legacy, w, first).echo == w1.cookie)
  {
    LegacyStep(mac, w, first);
    var w1 := Next(mac, Legacy, w, first);
    LegacyRun(mac, w1, events);
    var w' := After(mac, Legacy, w1, events);
    LegacyPassesIffHeaderIsCookie(mac, Open(w', anon), NoAuth, false, header);
  }

  // ---------------------------------------------------------------- tokens from before a login

  /** The browser's session id is none of the old ones. */
  predicate Moved(w: World, earlier: set<string>) { earlier <= w.used && w.sid.Some? && w.sid.value !in earlier }

  lemma NextStaysMoved(mac: Mac, mode: Mode, w: World, e: Event, earlier: set<string>)
    requires Moved(w, earlier)
    ensures Moved(Next(mac, mode, w, e), earlier)
  {
    if Possible(w, e) && !e.Expire? {
      var x := Response(mac, mode, w, e);
      assert x.sid == w.sid.value || x.sid !in w.used;
    }
  }

  lemma {:induction false} RunStaysMoved(mac: Mac, mode: Mode, w: World, events: seq<Event>, earlier: set<string>)
    requires Moved(w, earlier)
    ensures Moved(After(mac, mode, w, events), earlier)
    decreases |events|
  {
    if events != [] {
      NextStaysMoved(mac, mode, w, events[0], earlier);
      RunStaysMoved(mac, mode, Next(mac, mode, w, events[0]), events[1..], earlier);
    }
  }

  /**
   * Main result: in enforced signed mode, a token bound to any session id used before a login is
   * refused after it, at once and after any further run, unless the session the browser then has is
   * kept by the store and the hash collides on that session's message and the old one.
   */
  lemma NoTokenSurvivesLogin(mac: Mac, w: World, login: Event, events: seq<Event>, token: Option<string>, sid: string,
                             anon: string)
    requires login.Login? && Possible(w, login)
    requires sid in w.used && Check(mac, token, sid) == None
    requires var w' := After(mac, Signed, Next(mac, Signed, w, login), events); IsFresh(w', anon)
    ensures var w' := After(mac, Signed, Next(mac, Signed, w, login), events);
      var x := Open(w', anon);
      Verify(mac, Signed, true, x, NoAuth, false, token) <==>
      Persisted(x.session) && x.sid != "" && Collide(mac, Message(sid, Nonce(token)), Message(x.sid, Nonce(token)))
  {
    var w1 := Next(mac, Signed, w, login);
    RunStaysMoved(mac, Signed, w1, events, w.used);
    var w' := After(mac, Signed, w1, events);
    var x := Open(w', anon);
    assert x.hasSessionCookie && x.sid != sid;
    TokenBindsOnce(mac, token, sid, x.sid);
    SignedPassesIffHeaderBinds(mac, x, NoAuth, false, token);
  }
}
