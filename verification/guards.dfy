/**
 * The two access guards that wrap API views: "login required" answers 401 to
 * an anonymous caller, and "curator required" additionally answers 403 to a
 * signed-in caller whose profile is not a curator. A guard either lets the
 * request through to the view or answers with a JSON error and never calls
 * the view.
 */
module Guards {

  /** What a guard can see of `request.user`: signed in or not, and the profile's curator flag. */
  datatype Caller = Caller(isAuthenticated: bool, isCurator: bool)

  /** A guard's verdict: call the view, or answer with this status and `error` text. */
  datatype Decision = Proceed | Reject(status: int, error: string)

  const Unauthenticated: int := 401
  const Forbidden: int := 403
  const AuthenticationRequired: string := "Authentication required"
  const CuratorPrivilegesRequired: string := "Curator privileges required"

  /** The check `api_login_required` makes before calling its view. */
  function LoginDecision(c: Caller): (d: Decision)
    ensures d.Proceed? <==> c.isAuthenticated
    ensures d.Reject? ==> d.status == 401 && d.error == "Authentication required"
  {
    if !c.isAuthenticated then Reject(Unauthenticated, AuthenticationRequired) else Proceed
  }

  /** The role check alone, as `curator_required` makes it once the caller is known to be signed in. */
  function RoleDecision(c: Caller): (d: Decision)
    ensures d.Proceed? <==> c.isCurator
    ensures d.Reject? ==> d.status == 403 && d.error == "Curator privileges required"
  {
    if !c.isCurator then Reject(Forbidden, CuratorPrivilegesRequired) else Proceed
  }

  /**
   * The checks `curator_required` makes before calling its view: sign-in
   * first, then the curator flag. The flag of an anonymous caller is never
   * looked at.
   */
  function CuratorDecision(c: Caller): (d: Decision)
    ensures d.Proceed? <==> c.isAuthenticated && c.isCurator
    ensures !c.isAuthenticated ==> d == Reject(401, "Authentication required")
    ensures c.isAuthenticated && !c.isCurator ==> d == Reject(403, "Curator privileges required")
  {
    if !c.isAuthenticated then Reject(Unauthenticated, AuthenticationRequired)
    else if !c.isCurator then Reject(Forbidden, CuratorPrivilegesRequired)
    else Proceed
  }

  /** Runs the second check only when the first one let the request through. */
  function AndThen(first: Decision, second: Decision): Decision {
    if first.Reject? then first else second
  }

  /** A request: who is calling, and the remaining view arguments. */
  datatype Request<A> = Request(user: Caller, args: A)

  /** What the client gets back: the guard's JSON error, or whatever the view returned. */
  datatype Reply<R> = JsonError(status: int, error: string) | ViewReply(value: R)

  /** The outcome of a guarded call: the reply, the state afterwards and how often the view ran. */
  datatype Served<R, S> = Served(reply: Reply<R>, state: S, viewCalls: nat)

  /**
   * The wrapper a guard decorator puts around `view`. The view is a state
   * transformer, so any effect it has on the backing store shows in `state`.
   */
  function Wrap<A, R, S>(d: Decision, view: (Request<A>, S) -> (R, S), req: Request<A>, s: S): (out: Served<R, S>)
    ensures d.Reject? ==> out.reply == JsonError(d.status, d.error) && out.state == s && out.viewCalls == 0
    ensures d.Proceed? ==> out.reply == ViewReply(view(req, s).0) && out.state == view(req, s).1 && out.viewCalls == 1
  {
    if d.Reject? then Served(JsonError(d.status, d.error), s, 0)
    else
      var (r, s') := view(req, s);
      Served(ViewReply(r), s', 1)
  }

  /** `api_login_required(view)` applied to a request. */
  function ApiLoginRequired<A, R, S>(view: (Request<A>, S) -> (R, S), req: Request<A>, s: S): (out: Served<R, S>)
    ensures !req.user.isAuthenticated ==> out == Served(JsonError(401, "Authentication required"), s, 0)
    ensures req.user.isAuthenticated ==> out == Served(ViewReply(view(req, s).0), view(req, s).1, 1)
  {
    Wrap(LoginDecision(req.user), view, req, s)
  }

  /** `curator_required(view)` applied to a request. */
  function CuratorRequired<A, R, S>(view: (Request<A>, S) -> (R, S), req: Request<A>, s: S): (out: Served<R, S>)
    ensures !req.user.isAuthenticated ==> out == Served(JsonError(401, "Authentication required"), s, 0)
    ensures req.user.isAuthenticated && !req.user.isCurator
        ==> out == Served(JsonError(403, "Curator privileges required"), s, 0)
    ensures req.user.isAuthenticated && req.user.isCurator
        ==> out == Served(ViewReply(view(req, s).0), view(req, s).1, 1)
  {
    Wrap(CuratorDecision(req.user), view, req, s)
  }

  /** An anonymous request to a login-required view gets 401 "Authentication required" and changes nothing. */
  lemma LoginRequiredRejectsAnonymous<A, R, S>(view: (Request<A>, S) -> (R, S), req: Request<A>, s: S)
    requires !req.user.isAuthenticated
    ensures ApiLoginRequired(view, req, s) == Served(JsonError(401, "Authentication required"), s, 0)
  {
  }

  /** A signed-in request to a login-required view gets exactly what the view returns, with the same arguments. */
  lemma LoginRequiredPassesThrough<A, R, S>(view: (Request<A>, S) -> (R, S), req: Request<A>, s: S)
    requires req.user.isAuthenticated
    ensures ApiLoginRequired(view, req, s) == Served(ViewReply(view(req, s).0), view(req, s).1, 1)
  {
  }

  /** 401 before 403: an anonymous request to a curator view gets 401 whatever its curator flag says. */
  lemma CuratorRequiredRejectsAnonymous<A, R, S>(view: (Request<A>, S) -> (R, S), args: A, flag: bool, s: S)
    ensures CuratorRequired(view, Request(Caller(false, flag), args), s)
         == Served(JsonError(401, "Authentication required"), s, 0)
  {
  }

  /** A signed-in non-curator gets 403 "Curator privileges required" and changes nothing. */
  lemma CuratorRequiredForbidsHarvester<A, R, S>(view: (Request<A>, S) -> (R, S), args: A, s: S)
    ensures CuratorRequired(view, Request(Caller(true, false), args), s)
         == Served(JsonError(403, "Curator privileges required"), s, 0)
  {
  }

  /** A signed-in curator gets exactly what the view returns. */
  lemma CuratorRequiredPassesThrough<A, R, S>(view: (Request<A>, S) -> (R, S), args: A, s: S)
    ensures var req := Request(Caller(true, true), args);
            CuratorRequired(view, req, s) == Served(ViewReply(view(req, s).0), view(req, s).1, 1)
  {
  }

  /**
   * Short-circuit: whenever a guard rejects, the view is not run, so the
   * answer and the state are the same whatever the view would have done.
   */
  lemma RejectionIgnoresView<A, R, S>(d: Decision, v1: (Request<A>, S) -> (R, S), v2: (Request<A>, S) -> (R, S), req: Request<A>, s: S)
    requires d.Reject?
    ensures Wrap(d, v1, req, s) == Wrap(d, v2, req, s)
    ensures Wrap(d, v1, req, s).viewCalls == 0 && Wrap(d, v1, req, s).state == s
  {
  }

  /** Both guards answer 401 on exactly the same condition: the caller is not signed in. */
  lemma SameAuthenticationCondition(c: Caller)
    ensures LoginDecision(c) == Reject(401, "Authentication required") <==> !c.isAuthenticated
    ensures CuratorDecision(c) == Reject(401, "Authentication required") <==> !c.isAuthenticated
  {
  }

  /** The curator guard is the login guard followed by the role check, in that order. */
  lemma CuratorIsLoginThenRole(c: Caller)
    ensures CuratorDecision(c) == AndThen(LoginDecision(c), RoleDecision(c))
  {
  }

  /** The order matters: checking the role first would answer 403 where the source answers 401. */
  lemma RoleFirstWouldDiffer()
    ensures AndThen(RoleDecision(Caller(false, false)), LoginDecision(Caller(false, false)))
         != CuratorDecision(Caller(false, false))
  {
  }

  /** Every request the curator guard lets through, the login guard lets through too. */
  lemma CuratorStricterThanLogin(c: Caller)
    ensures CuratorDecision(c).Proceed? ==> LoginDecision(c).Proceed?
    ensures LoginDecision(c).Reject? ==> CuratorDecision(c) == LoginDecision(c)
  {
  }
}
