/** The session effects of the `/auth/login`, `/auth/register`, `/auth/logout`
    and `/auth/status` routes. The upstream forum's answer is a parameter. */
module Auth {
  import opened Wrappers
  import opened Email

  /** Cookies as `response.cookies.get_dict()` returns them. */
  type Jar = map<string, string>

  /** The two keys the routes keep in the Flask session: `user_email` and
      `auth_cookies`; `None` is an absent key. */
  datatype Session = Session(userEmail: Option<string>, authCookies: Option<Jar>)

  const Anonymous: Session := Session(None, None)

  /** What `requests.request` produced for the outbound call: no response at all
      (connection error, timeout), or a response with its status and cookies. */
  datatype Upstream = Unreachable | Responded(status: int, cookies: Jar)

  datatype Body =
    | Failure(error: string)
    | Welcome(message: string, email: string)
    | Note(message: string)

  datatype Reply = Reply(status: int, body: Body)

  /** One handled request: the reply and the session it leaves behind. */
  datatype Exchange = Exchange(reply: Reply, session: Session)

  datatype Flow = Login | Register

  datatype AuthStatus = AuthStatus(loggedIn: bool, email: Option<string>)

  /** `make_request` hands back a response only when the call went through and
      `raise_for_status` accepted it: statuses 400 to 599 are turned into `None`. */
  predicate Delivered(u: Upstream) {
    u.Responded? && !(400 <= u.status < 600)
  }

  /** Statuses that count as a successful sign-in or sign-out. */
  predicate Accepted(status: int) {
    status == 200 || status == 302
  }

  /** `request.form.get(key)`, with Python's falsy empty string folded into `None`. */
  function Field(form: map<string, string>, key: string): (r: Option<string>)
    ensures r.Some? <==> key in form && form[key] != ""
    ensures r.Some? ==> r.value == form[key]
  {
    if key in form && form[key] != "" then Some(form[key]) else None
  }

  function MissingMessage(): string { "邮箱或密码不能为空" }
  function MalformedMessage(): string { "邮箱格式错误" }

  function UnreachableMessage(flow: Flow): string {
    match flow
    case Login => "登录请求失败"
    case Register => "注册请求失败"
  }

  function SuccessMessage(flow: Flow): string {
    match flow
    case Login => "登录成功"
    case Register => "注册成功"
  }

  function RejectedMessage(flow: Flow): string {
    match flow
    case Login => "登录失败"
    case Register => "注册失败，邮箱可能已存在"
  }

  function LoggedOutMessage(): string { "登出成功" }

  function LogoutFailedMessage(): string { "登出失败" }

  /** Status of the reply when the upstream answered but did not accept:
      401 for a login, 400 for a registration. */
  function RejectedStatus(flow: Flow): int {
    match flow
    case Login => 401
    case Register => 400
  }

  /** The form passes the input checks that precede any upstream call. */
  predicate FormAccepted(form: map<string, string>) {
    Field(form, "user").Some? && Field(form, "pass").Some? && ValidateEmail(form["user"])
  }

  /** `login()` and `register()`: check the form, forward it upstream, and on
      status 200 or 302 record the e-mail and the upstream cookies. */
  function SignIn(flow: Flow, form: map<string, string>, upstream: Upstream, s: Session): (r: Exchange)
    ensures !FormAccepted(form) ==> r.reply.status == 400 && r.session == s
    ensures FormAccepted(form) && !Delivered(upstream) ==> r.reply.status == 500 && r.session == s
    ensures FormAccepted(form) && Delivered(upstream) && Accepted(upstream.status) ==>
      && r.reply == Reply(200, Welcome(SuccessMessage(flow), form["user"]))
      && r.session == Session(Some(form["user"]), Some(upstream.cookies))
    ensures FormAccepted(form) && Delivered(upstream) && !Accepted(upstream.status) ==>
      r.reply.status == RejectedStatus(flow) && r.session == s
    ensures r.session != s ==> r.reply.status == 200
    ensures Field(form, "user").None? || Field(form, "pass").None? ==>
      r.reply == Reply(400, Failure(MissingMessage()))
    ensures Field(form, "user").Some? && Field(form, "pass").Some? && !ValidateEmail(form["user"]) ==>
      r.reply == Reply(400, Failure(MalformedMessage()))
    ensures FormAccepted(form) && !Delivered(upstream) ==>
      r.reply == Reply(500, Failure(UnreachableMessage(flow)))
    ensures FormAccepted(form) && Delivered(upstream) && !Accepted(upstream.status) ==>
      r.reply == Reply(RejectedStatus(flow), Failure(RejectedMessage(flow)))
  {
    var email := Field(form, "user");
    var password := Field(form, "pass");
    if email.None? || password.None? then
      Exchange(Reply(400, Failure(MissingMessage())), s)
    else if !ValidateEmail(email.value) then
      Exchange(Reply(400, Failure(MalformedMessage())), s)
    else if !Delivered(upstream) then
      Exchange(Reply(500, Failure(UnreachableMessage(flow))), s)
    else if Accepted(upstream.status) then
      Exchange(Reply(200, Welcome(SuccessMessage(flow), email.value)),
               Session(Some(email.value), Some(upstream.cookies)))
    else
      Exchange(Reply(RejectedStatus(flow), Failure(RejectedMessage(flow))), s)
  }

  /** `logout()`: both keys are dropped whatever the upstream said; the reply is
      200 only when the upstream accepted. */
  function Logout(upstream: Upstream, s: Session): (r: Exchange)
    ensures r.session == Anonymous
    ensures r.reply.status == 200 <==> Delivered(upstream) && Accepted(upstream.status)
    ensures r.reply.status == 200 || r.reply.status == 400
    ensures r.reply.status == 200 ==> r.reply.body == Note(LoggedOutMessage())
    ensures r.reply.status == 400 ==> r.reply.body == Failure(LogoutFailedMessage())
  {
    var session := Session(None, None);
    if Delivered(upstream) && Accepted(upstream.status) then
      Exchange(Reply(200, Note(LoggedOutMessage())), session)
    else
      Exchange(Reply(400, Failure(LogoutFailedMessage())), session)
  }

  /** `auth_status()`. */
  function Status(s: Session): (r: AuthStatus)
    ensures r.loggedIn <==> s.userEmail.Some?
    ensures r.email == s.userEmail
  {
    AuthStatus(s.userEmail.Some?, s.userEmail)
  }

  /** The cookies every authenticated upstream call carries:
      `session.get('auth_cookies', {})`. */
  function ReplayedCookies(s: Session): (r: Jar)
    ensures s.authCookies.Some? ==> r == s.authCookies.value
    ensures s.authCookies.None? ==> r == map[]
  {
    s.authCookies.GetOr(map[])
  }

  /** Rejected input never reaches the upstream: the outcome is the same whatever
      the upstream would have answered. */
  lemma GateIgnoresUpstream(flow: Flow, form: map<string, string>, u1: Upstream, u2: Upstream, s: Session)
    requires !FormAccepted(form)
    ensures SignIn(flow, form, u1, s) == SignIn(flow, form, u2, s)
    ensures SignIn(flow, form, u1, s).reply.status == 400
  {
  }

  /** After a successful sign-in the status reports the submitted address, and
      later upstream calls replay exactly the cookies the upstream set. */
  lemma SignInThenStatus(flow: Flow, form: map<string, string>, upstream: Upstream, s: Session)
    requires FormAccepted(form) && Delivered(upstream) && Accepted(upstream.status)
    ensures var after := SignIn(flow, form, upstream, s).session;
      && Status(after) == AuthStatus(true, Some(form["user"]))
      && ReplayedCookies(after) == upstream.cookies
  {
  }

  /** After a logout the status is logged out and no cookies are replayed,
      whatever the upstream answered. */
  lemma LogoutThenStatus(upstream: Upstream, s: Session)
    ensures Status(Logout(upstream, s).session) == AuthStatus(false, None)
    ensures ReplayedCookies(Logout(upstream, s).session) == map[]
  {
  }

  /** The session invariant the routes keep: the two keys are present together,
      and a stored address passed `validate_email`. */
  predicate Consistent(s: Session) {
    && (s.userEmail.Some? <==> s.authCookies.Some?)
    && (s.userEmail.Some? ==> ValidateEmail(s.userEmail.value))
  }

  /** One request against the session. */
  datatype Request =
    | SignInRequest(flow: Flow, form: map<string, string>, upstream: Upstream)
    | LogoutRequest(upstream: Upstream)
    | StatusRequest

  function Handle(req: Request, s: Session): Session {
    match req
    case SignInRequest(flow, form, upstream) => SignIn(flow, form, upstream, s).session
    case LogoutRequest(upstream) => Logout(upstream, s).session
    case StatusRequest => s
  }

  function Run(reqs: seq<Request>, s: Session): Session
    decreases |reqs|
  {
    if reqs == [] then s else Run(reqs[1..], Handle(reqs[0], s))
  }

  /** Every request keeps the invariant. */
  lemma HandleConsistent(req: Request, s: Session)
    requires Consistent(s)
    ensures Consistent(Handle(req, s))
  {
  }

  /** From a fresh session, any sequence of requests leaves a consistent session:
      whenever the status reports a user, that address is well formed and
      cookies are stored for it. */
  lemma {:induction false} RunConsistent(reqs: seq<Request>, s: Session)
    requires Consistent(s)
    ensures Consistent(Run(reqs, s))
    ensures Status(Run(reqs, s)).loggedIn ==>
      ValidateEmail(Status(Run(reqs, s)).email.value) && Run(reqs, s).authCookies.Some?
    decreases |reqs|
  {
    if reqs != [] {
      HandleConsistent(reqs[0], s);
      RunConsistent(reqs[1..], Handle(reqs[0], s));
    }
  }

  /** A fresh session reports nobody logged in. */
  lemma FreshStatus()
    ensures Status(Anonymous) == AuthStatus(false, None)
    ensures Consistent(Anonymous)
  {
  }
}
