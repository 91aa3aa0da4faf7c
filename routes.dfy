/**
 * The users and auth routers (routes/users.routes.js, routes/auth.routes.js):
 * each endpoint's middleware chain, and what running a chain lets through.
 */
module Routes {
  import opened Optional
  import opened Response
  import AuthMiddleware

  datatype Verb = Get | Post | Put | Delete | Patch

  datatype Middleware = Authenticate | Authorize(roles: seq<string>)

  datatype Handler =
    | GetAllUsers | GetUserById | UpdateUser | DeleteUser | ToggleUserStatus | ResetUserPassword
    | Register | Login | GetCurrentUser

  /** One `router.<verb>(path, ...middleware, handler)` declaration. */
  datatype Route = Route(verb: Verb, path: string, chain: seq<Middleware>, handler: Handler)

  const AdminOnly: seq<Middleware> := [Authenticate, Authorize(["admin"])]
  const AnyAuthenticated: seq<Middleware> := [Authenticate]

  /** The users router, in declaration order. */
  const UsersRoutes: seq<Route> := [
    Route(Get, "/", AdminOnly, GetAllUsers),
    Route(Get, "/:id", AnyAuthenticated, GetUserById),
    Route(Put, "/:id", AdminOnly, UpdateUser),
    Route(Delete, "/:id", AdminOnly, DeleteUser),
    Route(Patch, "/:id/status", AdminOnly, ToggleUserStatus),
    Route(Post, "/:id/reset-password", AdminOnly, ResetUserPassword)
  ]

  /** The auth router, in declaration order. */
  const AuthRoutes: seq<Route> := [
    Route(Post, "/register", AdminOnly, Register),
    Route(Post, "/login", [], Login),
    Route(Get, "/me", AnyAuthenticated, GetCurrentUser)
  ]

  /** The first declared route for a verb and a path pattern, as the router matches. */
  function Find(routes: seq<Route>, verb: Verb, path: string): (r: Option<Route>)
    ensures r != None ==> r.value in routes && r.value.verb == verb && r.value.path == path
    ensures r == None ==> forall k :: 0 <= k < |routes| ==> routes[k].verb != verb || routes[k].path != path
  {
    if routes == [] then None
    else if routes[0].verb == verb && routes[0].path == path then Some(routes[0])
    else Find(routes[1..], verb, path)
  }

  /** GET / on the users router: authenticate, then authorize('admin'). */
  lemma ListUsersRoute()
    ensures Find(UsersRoutes, Get, "/") == Some(Route(Get, "/", AdminOnly, GetAllUsers))
  {
  }

  /** GET /:id on the users router: authenticate only, so any role may read any profile. */
  lemma GetUserRoute()
    ensures Find(UsersRoutes, Get, "/:id") == Some(Route(Get, "/:id", AnyAuthenticated, GetUserById))
  {
  }

  /** PUT /:id on the users router: authenticate, then authorize('admin'). */
  lemma UpdateUserRoute()
    ensures Find(UsersRoutes, Put, "/:id") == Some(Route(Put, "/:id", AdminOnly, UpdateUser))
  {
    assert Find(UsersRoutes[2..], Put, "/:id") == Some(UsersRoutes[2]);
    assert UsersRoutes[1..][1..] == UsersRoutes[2..];
  }

  /** DELETE /:id on the users router: authenticate, then authorize('admin'). */
  lemma DeleteUserRoute()
    ensures Find(UsersRoutes, Delete, "/:id") == Some(Route(Delete, "/:id", AdminOnly, DeleteUser))
  {
    assert Find(UsersRoutes[3..], Delete, "/:id") == Some(UsersRoutes[3]);
    assert UsersRoutes[2..][1..] == UsersRoutes[3..];
    assert UsersRoutes[1..][1..] == UsersRoutes[2..];
  }

  /** PATCH /:id/status on the users router: authenticate, then authorize('admin'). */
  lemma ToggleStatusRoute()
    ensures Find(UsersRoutes, Patch, "/:id/status")
      == Some(Route(Patch, "/:id/status", AdminOnly, ToggleUserStatus))
  {
    assert Find(UsersRoutes[4..], Patch, "/:id/status") == Some(UsersRoutes[4]);
    assert UsersRoutes[3..][1..] == UsersRoutes[4..];
    assert UsersRoutes[2..][1..] == UsersRoutes[3..];
    assert UsersRoutes[1..][1..] == UsersRoutes[2..];
  }

  /** POST /:id/reset-password on the users router: authenticate, then authorize('admin'). */
  lemma ResetPasswordRoute()
    ensures Find(UsersRoutes, Post, "/:id/reset-password")
      == Some(Route(Post, "/:id/reset-password", AdminOnly, ResetUserPassword))
  {
    assert Find(UsersRoutes[5..], Post, "/:id/reset-password") == Some(UsersRoutes[5]);
    assert UsersRoutes[4..][1..] == UsersRoutes[5..];
    assert UsersRoutes[3..][1..] == UsersRoutes[4..];
    assert UsersRoutes[2..][1..] == UsersRoutes[3..];
    assert UsersRoutes[1..][1..] == UsersRoutes[2..];
  }

  /** POST /register on the auth router: authenticate, then authorize('admin'). */
  lemma RegisterRoute()
    ensures Find(AuthRoutes, Post, "/register") == Some(Route(Post, "/register", AdminOnly, Register))
  {
  }

  /** POST /login on the auth router: no middleware at all. */
  lemma LoginRoute()
    ensures Find(AuthRoutes, Post, "/login") == Some(Route(Post, "/login", [], Login))
  {
  }

  /** GET /me on the auth router: authenticate only, no role restriction. */
  lemma CurrentUserRoute()
    ensures Find(AuthRoutes, Get, "/me") == Some(Route(Get, "/me", AnyAuthenticated, GetCurrentUser))
  {
    assert Find(AuthRoutes[2..], Get, "/me") == Some(AuthRoutes[2]);
    assert AuthRoutes[1..][1..] == AuthRoutes[2..];
  }

  /** Every `Authorize` in a chain has an `Authenticate` somewhere before it. */
  predicate AuthenticatesFirst(chain: seq<Middleware>) {
    forall i :: 0 <= i < |chain| && chain[i].Authorize? ==>
      exists j :: 0 <= j < i && chain[j] == Authenticate
  }

  /**
   * In both routers authentication precedes authorization, and every users
   * route other than a read carries `authorize('admin')`.
   */
  lemma RouteTablePolicy()
    ensures forall r :: r in UsersRoutes + AuthRoutes ==> AuthenticatesFirst(r.chain)
    ensures forall r :: r in UsersRoutes && r.verb != Get ==> Authorize(["admin"]) in r.chain
  {
    assert AdminOnly[0] == Authenticate;
  }

  /** Where a request ends up after its chain: at the handler, or answered early. */
  datatype Outcome = Reached(user: Option<AuthMiddleware.Claims>) | Stopped(response: Envelope)

  /**
   * Runs a middleware chain on a request with the given `Authorization`
   * header; `user` is `req.user` so far.
   */
  function RunChain(chain: seq<Middleware>, authorization: Option<string>,
                    verify: string -> AuthMiddleware.Verification,
                    user: Option<AuthMiddleware.Claims>): (r: Outcome)
    ensures chain == [] ==> r == Reached(user)
    ensures r.Stopped? ==>
      (!r.response.success && r.response.data == None
       && (r.response.status == 401 || r.response.status == 403))
  {
    if chain == [] then Reached(user)
    else
      match chain[0]
      case Authenticate =>
        (match AuthMiddleware.Authenticate(authorization, verify)
         case Authenticated(claims) => RunChain(chain[1..], authorization, verify, Some(claims))
         case Rejected(response) => Stopped(response))
      case Authorize(roles) =>
        (match AuthMiddleware.Authorize(roles, user)
         case Proceed => RunChain(chain[1..], authorization, verify, user)
         case Deny(response) => Stopped(response))
  }

  /**
   * Once a chain reaches its handler, every `Authenticate` in it accepted the
   * header, and the user the handler sees is the one the token verified to;
   * a chain without `Authenticate` leaves `req.user` as it was.
   */
  lemma {:induction false} ReachedUser(chain: seq<Middleware>, authorization: Option<string>,
                                       verify: string -> AuthMiddleware.Verification,
                                       user: Option<AuthMiddleware.Claims>)
    requires RunChain(chain, authorization, verify, user).Reached?
    ensures Authenticate in chain ==>
      var decision := AuthMiddleware.Authenticate(authorization, verify);
      decision.Authenticated? && RunChain(chain, authorization, verify, user).user == Some(decision.user)
    ensures Authenticate !in chain ==> RunChain(chain, authorization, verify, user).user == user
  {
    if chain != [] {
      assert forall m :: m in chain <==> m == chain[0] || m in chain[1..];
      match chain[0]
      case Authenticate =>
        var claims := AuthMiddleware.Authenticate(authorization, verify).user;
        ReachedUser(chain[1..], authorization, verify, Some(claims));
      case Authorize(roles) =>
        ReachedUser(chain[1..], authorization, verify, user);
    }
  }

  /**
   * The inductive core of `ReachedHandlerHasRole`: either no `Authorize`
   * comes before an `Authenticate`, or the current user already is the
   * verified one.
   */
  lemma {:induction false} ReachedRoles(chain: seq<Middleware>, authorization: Option<string>,
                                        verify: string -> AuthMiddleware.Verification,
                                        user: Option<AuthMiddleware.Claims>)
    requires RunChain(chain, authorization, verify, user).Reached?
    requires AuthenticatesFirst(chain)
      || (AuthMiddleware.Authenticate(authorization, verify).Authenticated?
          && user == Some(AuthMiddleware.Authenticate(authorization, verify).user))
    ensures forall roles :: Authorize(roles) in chain ==>
      var reached := RunChain(chain, authorization, verify, user).user;
      reached != None && reached.value.role in roles
  {
    if chain != [] {
      var decision := AuthMiddleware.Authenticate(authorization, verify);
      assert forall m :: m in chain <==> m == chain[0] || m in chain[1..];
      match chain[0]
      case Authenticate =>
        ReachedRoles(chain[1..], authorization, verify, Some(decision.user));
      case Authorize(roles) =>
        assert !AuthenticatesFirst(chain) by {
          assert chain[0].Authorize?;
        }
        ReachedUser(chain[1..], authorization, verify, user);
        ReachedRoles(chain[1..], authorization, verify, user);
    }
  }

  /**
   * A request that reaches the handler of a chain in which authentication
   * comes first carries a user whose role is in every `Authorize` list of the
   * chain.
   */
  lemma ReachedHandlerHasRole(chain: seq<Middleware>, authorization: Option<string>,
                              verify: string -> AuthMiddleware.Verification)
    requires AuthenticatesFirst(chain)
    requires RunChain(chain, authorization, verify, None).Reached?
    ensures forall roles :: Authorize(roles) in chain ==>
      var reached := RunChain(chain, authorization, verify, None).user;
      reached != None && reached.value.role in roles
  {
    ReachedRoles(chain, authorization, verify, None);
  }

  /**
   * On every declared route, a request reaches the handler only with a
   * verified user whose role the route's `authorize` lists.
   */
  lemma DeclaredRoutesEnforceRoles(authorization: Option<string>, verify: string -> AuthMiddleware.Verification)
    ensures forall r, roles ::
      r in UsersRoutes + AuthRoutes && Authorize(roles) in r.chain
      && RunChain(r.chain, authorization, verify, None).Reached? ==>
      var reached := RunChain(r.chain, authorization, verify, None).user;
      reached != None && reached.value.role in roles
  {
    RouteTablePolicy();
    forall r | r in UsersRoutes + AuthRoutes && RunChain(r.chain, authorization, verify, None).Reached? {
      ReachedHandlerHasRole(r.chain, authorization, verify);
    }
  }

  /**
   * An admin-only endpoint is reached exactly when the token verifies to
   * claims whose role is "admin"; the handler then sees those claims.
   */
  lemma AdminOnlyReachedIffAdmin(authorization: Option<string>, verify: string -> AuthMiddleware.Verification)
    ensures var decision := AuthMiddleware.Authenticate(authorization, verify);
      RunChain(AdminOnly, authorization, verify, None).Reached?
      <==> decision.Authenticated? && decision.user.role == "admin"
    ensures RunChain(AdminOnly, authorization, verify, None).Reached? ==>
      RunChain(AdminOnly, authorization, verify, None).user
      == Some(AuthMiddleware.Authenticate(authorization, verify).user)
  {
    assert AdminOnly[0] == Authenticate;
    assert AdminOnly[1..] == [Authorize(["admin"])];
    var decision := AuthMiddleware.Authenticate(authorization, verify);
    if decision.Authenticated? {
      assert RunChain(AdminOnly, authorization, verify, None)
        == RunChain([Authorize(["admin"])], authorization, verify, Some(decision.user));
      SingleAuthorize(["admin"], authorization, verify, Some(decision.user));
    }
  }

  /** A chain made of one `authorize` passes exactly the users it admits, unchanged. */
  lemma SingleAuthorize(roles: seq<string>, authorization: Option<string>,
                        verify: string -> AuthMiddleware.Verification, user: Option<AuthMiddleware.Claims>)
    ensures RunChain([Authorize(roles)], authorization, verify, user).Reached?
      <==> AuthMiddleware.Authorize(roles, user).Proceed?
    ensures RunChain([Authorize(roles)], authorization, verify, user).Reached?
      ==> RunChain([Authorize(roles)], authorization, verify, user).user == user
  {
    assert [Authorize(roles)][1..] == [];
  }

  /** An authenticated-only endpoint is reached by any verified token, whatever its role. */
  lemma AnyAuthenticatedReachedIffVerified(authorization: Option<string>, verify: string -> AuthMiddleware.Verification)
    ensures RunChain(AnyAuthenticated, authorization, verify, None).Reached?
      <==> AuthMiddleware.Authenticate(authorization, verify).Authenticated?
  {
    assert AnyAuthenticated[1..] == [];
  }

  /** The login endpoint runs no middleware: every request reaches its handler, without a user. */
  lemma LoginIsOpen(authorization: Option<string>, verify: string -> AuthMiddleware.Verification)
    ensures Find(AuthRoutes, Post, "/login") != None
      && RunChain(Find(AuthRoutes, Post, "/login").value.chain, authorization, verify, None) == Reached(None)
  {
    LoginRoute();
  }
}
