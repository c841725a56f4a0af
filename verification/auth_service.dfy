/**
 * The login service (AuthService): the staff repository keyed by e-mail and
 * the in-memory session table from token to staff member.
 *
 * The session table holds the member object a login read from the
 * repository. The model keys both the table and the repository by e-mail
 * address, as if they shared one object per member, so a change made
 * through the table (logging out) is seen through the repository and the
 * reverse; in the program the token field is not persisted and each
 * repository read may hand out its own object, so that sharing is a
 * modelling choice. The token generator reads the clock, which is not part
 * of this model: the token a login would issue is a parameter.
 */
module Auth {
  import opened Wrappers
  import opened Staff

  datatype AuthState = AuthState(users: map<string, Personal>, tokenStore: map<string, string>)

  /** The service before anyone has been added or logged in. */
  const Empty: AuthState := AuthState(map[], map[])

  /** The empty service satisfies both invariants below and holds no session. */
  lemma EmptyServiceIsConsistent()
    ensures Consistent(Empty) && SessionsAgree(Empty) && ActiveSessionsCount(Empty) == 0
  {
  }

  /** Each member is filed under their own address, and every session belongs to a member on file. */
  predicate Consistent(s: AuthState) {
    && (forall e :: e in s.users ==> s.users[e].email == e)
    && (forall t :: t in s.tokenStore ==> s.tokenStore[t] in s.users)
  }

  /** Every member who believes they hold a session holds one the table gives back to them. */
  predicate SessionsAgree(s: AuthState) {
    forall e :: e in s.users && HasActiveSession(s.users[e]) ==>
      s.users[e].activeToken.value in s.tokenStore && s.tokenStore[s.users[e].activeToken.value] == e
  }

  /** valido: the token opens a session in the table. */
  predicate Valido(s: AuthState, token: string) {
    token in s.tokenStore
  }

  /** getUserByToken: the member the table files the token under (null when it files none). */
  function GetUserByToken(s: AuthState, token: string): (r: Option<Personal>)
    requires Consistent(s)
    ensures r.Some? <==> Valido(s, token)
    ensures r.Some? ==> r.value == s.users[s.tokenStore[token]] && r.value.email == s.tokenStore[token]
  {
    if token in s.tokenStore then Some(s.users[s.tokenStore[token]]) else None
  }

  /** getActiveSessionsCount: the number of tokens in the table. */
  function ActiveSessionsCount(s: AuthState): (n: nat)
    ensures n == 0 <==> forall t :: !Valido(s, t)
  {
    assert forall t :: t in s.tokenStore <==> Valido(s, t);
    |s.tokenStore|
  }

  datatype LoginOutcome = LoginOutcome(state: AuthState, token: Option<string>)

  /**
   * login: a member on file who offers their password gets `token`, which
   * becomes their active token and is filed in the table under them;
   * anything else changes nothing and yields no token.
   */
  function Login(s: AuthState, email: string, password: Option<string>, token: string): (r: LoginOutcome)
    ensures r.token.Some? <==> email in s.users && CheckPassword(s.users[email], password)
    ensures r.token.None? ==> r.state == s
    ensures r.token.Some? ==> r.token.value == token
    ensures r.token.Some? ==> && email in r.state.users
                              && IsValidToken(r.state.users[email], Some(token))
                              && Valido(r.state, token) && r.state.tokenStore[token] == email
    ensures r.token.Some? ==> && r.state.users.Keys == s.users.Keys
                              && r.state.tokenStore.Keys == s.tokenStore.Keys + {token}
                              && (forall e :: e in s.users && e != email ==> r.state.users[e] == s.users[e])
                              && (forall t :: t in s.tokenStore && t != token ==> r.state.tokenStore[t] == s.tokenStore[t])
                              && Equals(r.state.users[email], s.users[email])
  {
    if email in s.users && CheckPassword(s.users[email], password) then
      var user := SetActiveToken(s.users[email], Some(token));
      LoginOutcome(AuthState(s.users[email := user], s.tokenStore[token := email]), Some(token))
    else
      LoginOutcome(s, None)
  }

  datatype LogoutOutcome = LogoutOutcome(state: AuthState, result: Option<bool>)

  /**
   * logout: a token in the table is removed from it and the member it is
   * filed under has their session closed; an unknown token changes
   * nothing and yields no answer.
   */
  function Logout(s: AuthState, token: string): (r: LogoutOutcome)
    requires Consistent(s)
    ensures r.result.Some? <==> Valido(s, token)
    ensures r.result.Some? ==> r.result.value
    ensures r.result.None? ==> r.state == s
    ensures r.result.Some? ==> && !Valido(r.state, token)
                               && r.state.tokenStore == s.tokenStore - {token}
                               && r.state.users.Keys == s.users.Keys
                               && !HasActiveSession(r.state.users[s.tokenStore[token]])
                               && (forall e :: e in s.users && e != s.tokenStore[token] ==> r.state.users[e] == s.users[e])
  {
    if token in s.tokenStore then
      var e := s.tokenStore[token];
      LogoutOutcome(AuthState(s.users[e := InvalidateToken(s.users[e])], s.tokenStore - {token}), Some(true))
    else
      LogoutOutcome(s, None)
  }

  /** addUser: a member whose address is not yet on file is saved; null or a taken address changes nothing. */
  function AddUser(s: AuthState, user: Option<Personal>): (r: AuthState)
    ensures r.tokenStore == s.tokenStore
    ensures user.None? || user.value.email in s.users ==> r == s
    ensures user.Some? && user.value.email !in s.users ==>
              r.users.Keys == s.users.Keys + {user.value.email} && r.users[user.value.email] == user.value
    ensures forall e :: e in s.users ==> e in r.users && r.users[e] == s.users[e]
  {
    if user.Some? && user.value.email !in s.users then
      AuthState(s.users[user.value.email := user.value], s.tokenStore)
    else
      s
  }

  /** The addresses that hold at least one session in the table. */
  function LoggedIn(s: AuthState): set<string> {
    set t | t in s.tokenStore :: s.tokenStore[t]
  }

  /**
   * clearAllSessions: every member the table files a session under has
   * that session closed, and the table is emptied. Members the table does
   * not name are left as they are.
   */
  function ClearAllSessions(s: AuthState): (r: AuthState)
    requires Consistent(s)
    ensures r.tokenStore == map[] && ActiveSessionsCount(r) == 0
    ensures r.users.Keys == s.users.Keys
    ensures forall e :: e in s.users ==> Equals(r.users[e], s.users[e]) && r.users[e].contrasena == s.users[e].contrasena
    ensures forall t :: t in s.tokenStore ==> !HasActiveSession(r.users[s.tokenStore[t]])
    ensures forall e :: e in s.users && e !in LoggedIn(s) ==> r.users[e] == s.users[e]
  {
    var users := map e | e in s.users :: if e in LoggedIn(s) then InvalidateToken(s.users[e]) else s.users[e];
    assert forall t :: t in s.tokenStore ==> s.tokenStore[t] in LoggedIn(s);
    AuthState(users, map[])
  }

  /** A member added to the service can log in with the password they were added with. */
  lemma {:induction false} AddedUserCanLogIn(s: AuthState, email: string, password: string, token: string)
    requires email !in s.users
    ensures var t := AddUser(s, Some(NuevoPersonal(email, Some(password))));
            Login(t, email, Some(password), token).token == Some(token)
  {
    var t := AddUser(s, Some(NuevoPersonal(email, Some(password))));
    assert t.users[email] == NuevoPersonal(email, Some(password));
  }

  /** After login, the token names the member who logged in and is the one they hold. */
  lemma LoginThenLookUp(s: AuthState, email: string, password: Option<string>, token: string)
    requires Consistent(s)
    requires email in s.users && CheckPassword(s.users[email], password)
    ensures var r := Login(s, email, password, token).state;
            Consistent(r) && GetUserByToken(r, token) == Some(r.users[email])
            && GetUserByToken(r, token).value.email == email
            && IsValidToken(GetUserByToken(r, token).value, Some(token))
  {
  }

  /** Logging in and then out again with the issued token leaves no session for that token. */
  lemma {:induction false} LoginThenLogout(s: AuthState, email: string, password: Option<string>, token: string)
    requires Consistent(s) && SessionsAgree(s)
    requires token !in s.tokenStore
    requires email in s.users && CheckPassword(s.users[email], password)
    ensures var r := Login(s, email, password, token).state;
            var q := Logout(r, token);
            q.result == Some(true) && !HasActiveSession(q.state.users[email])
            && q.state.tokenStore == s.tokenStore
  {
    var r := Login(s, email, password, token).state;
    assert r.tokenStore.Keys == s.tokenStore.Keys + {token};
    assert r.tokenStore - {token} == s.tokenStore;
  }

  lemma LoginKeepsConsistent(s: AuthState, email: string, password: Option<string>, token: string)
    requires Consistent(s)
    ensures Consistent(Login(s, email, password, token).state)
  {
  }

  lemma LogoutKeepsInvariants(s: AuthState, token: string)
    requires Consistent(s)
    ensures Consistent(Logout(s, token).state)
    ensures SessionsAgree(s) ==> SessionsAgree(Logout(s, token).state)
  {
  }

  lemma AddUserKeepsInvariants(s: AuthState, user: Option<Personal>)
    requires Consistent(s) && SessionsAgree(s)
    requires user.Some? ==> !HasActiveSession(user.value)
    ensures Consistent(AddUser(s, user)) && SessionsAgree(AddUser(s, user))
  {
  }

  /**
   * When every member's session is in the table under them, clearing the
   * table leaves nobody believing they are logged in.
   */
  lemma {:induction false} ClearEndsEverySession(s: AuthState)
    requires Consistent(s) && SessionsAgree(s)
    ensures var r := ClearAllSessions(s);
            Consistent(r) && SessionsAgree(r) && forall e :: e in r.users ==> !HasActiveSession(r.users[e])
  {
    var r := ClearAllSessions(s);
    forall e | e in r.users
      ensures !HasActiveSession(r.users[e])
    {
      if HasActiveSession(s.users[e]) {
        var t := s.users[e].activeToken.value;
        assert t in s.tokenStore && s.tokenStore[t] == e;
      }
    }
  }

  /** A login with a token the table does not hold yet keeps every session in agreement. */
  lemma {:induction false} LoginWithUnusedTokenKeepsSessions(s: AuthState, email: string, password: Option<string>, token: string)
    requires Consistent(s) && SessionsAgree(s)
    requires token !in s.tokenStore
    ensures SessionsAgree(Login(s, email, password, token).state)
  {
    var r := Login(s, email, password, token);
    if r.token.Some? {
      forall e | e in r.state.users && HasActiveSession(r.state.users[e])
        ensures r.state.users[e].activeToken.value in r.state.tokenStore
        ensures r.state.tokenStore[r.state.users[e].activeToken.value] == e
      {
        if e != email {
          var t := s.users[e].activeToken.value;
          assert t in s.tokenStore && t != token;
        }
      }
    }
  }

  /**
   * Logging in again keeps the earlier token working: it stays in the
   * table under the same member although that member now holds the new
   * token.
   */
  lemma {:induction false} ReloginKeepsOldToken(s: AuthState, email: string, password: Option<string>, t1: string, t2: string)
    requires Consistent(s)
    requires email in s.users && CheckPassword(s.users[email], password)
    requires t1 != t2
    ensures var s1 := Login(s, email, password, t1).state;
            var s2 := Login(s1, email, password, t2).state;
            Valido(s2, t1) && GetUserByToken(s2, t1) == Some(s2.users[email])
            && !IsValidToken(s2.users[email], Some(t1)) && IsValidToken(s2.users[email], Some(t2))
  {
    var s1 := Login(s, email, password, t1).state;
    assert s1.users[email].contrasena == s.users[email].contrasena;
  }

  /**
   * As written, the generator issues the clock reading in hexadecimal, so
   * two logins within one millisecond receive the same token. Then the
   * table files that token under the second member while the first still
   * holds it: the first member's token authenticates the second member,
   * the number of sessions does not grow, and the table no longer agrees
   * with the members' own tokens. The last clause is about this model's
   * one record per address: the first member's record keeps its token
   * after all sessions are cleared. In the program the token field is
   * transient and that member's object is no longer reachable from the
   * table once it is overwritten, so the clause shows only through a
   * reference kept elsewhere.
   */
  lemma {:induction false} TokenCollisionHijacksSession(s: AuthState, a: string, pa: Option<string>,
                                                        b: string, pb: Option<string>, token: string)
    requires Consistent(s)
    requires a != b && a !in LoggedIn(s)
    requires a in s.users && CheckPassword(s.users[a], pa)
    requires b in s.users && CheckPassword(s.users[b], pb)
    ensures var first := Login(s, a, pa, token);
            var second := Login(first.state, b, pb, token);
            && first.token == Some(token) && second.token == Some(token)
            && IsValidToken(second.state.users[a], Some(token))
            && GetUserByToken(second.state, token) == Some(second.state.users[b])
            && ActiveSessionsCount(second.state) == ActiveSessionsCount(first.state)
            && !SessionsAgree(second.state)
            && HasActiveSession(ClearAllSessions(second.state).users[a])
  {
    var first := Login(s, a, pa, token);
    LoginKeepsConsistent(s, a, pa, token);
    assert first.state.users[b] == s.users[b];
    var second := Login(first.state, b, pb, token);
    LoginKeepsConsistent(first.state, b, pb, token);
    assert second.token == Some(token);
    assert second.state.users[a] == first.state.users[a];
    assert second.state.tokenStore.Keys == first.state.tokenStore.Keys;
    assert a !in LoggedIn(second.state) by {
      forall t | t in second.state.tokenStore
        ensures second.state.tokenStore[t] != a
      {
        if t != token {
          assert second.state.tokenStore[t] == s.tokenStore[t];
          assert s.tokenStore[t] in LoggedIn(s);
        }
      }
    }
    assert ClearAllSessions(second.state).users[a] == second.state.users[a];
  }

  /**
   * A token the table does not hold yet, derived from the clock's
   * rendering `base`: the rendering itself when it is unused, otherwise
   * the rendering with primes appended until it is.
   */
  function FreshToken(inUse: set<string>, base: string): (t: string)
    ensures t !in inUse
    ensures |t| >= |base| && t[..|base|] == base
    ensures base !in inUse ==> t == base
    decreases |inUse|
  {
    if base !in inUse then base
    else
      var t := FreshToken(inUse - {base}, base + "'");
      assert t[..|base|] == (t[..|base + "'"|])[..|base|];
      t
  }

  /** login with a generator that never reissues a token the table still holds. */
  function LoginFresh(s: AuthState, email: string, password: Option<string>, clock: string): (r: LoginOutcome)
    ensures r.token.Some? ==> r.token.value !in s.tokenStore
    ensures r.token.Some? <==> email in s.users && CheckPassword(s.users[email], password)
  {
    Login(s, email, password, FreshToken(s.tokenStore.Keys, clock))
  }

  /**
   * With fresh tokens the session table stays in agreement with the
   * members, whatever the clock reads: earlier sessions keep their owners,
   * and clearing all sessions then logs everybody out.
   */
  lemma {:induction false} FreshLoginKeepsSessions(s: AuthState, email: string, password: Option<string>, clock: string)
    requires Consistent(s) && SessionsAgree(s)
    ensures var r := LoginFresh(s, email, password, clock).state;
            && Consistent(r) && SessionsAgree(r)
            && (forall t :: t in s.tokenStore ==> t in r.tokenStore && r.tokenStore[t] == s.tokenStore[t])
            && forall e :: e in r.users ==> !HasActiveSession(ClearAllSessions(r).users[e])
  {
    var token := FreshToken(s.tokenStore.Keys, clock);
    LoginKeepsConsistent(s, email, password, token);
    LoginWithUnusedTokenKeepsSessions(s, email, password, token);
    ClearEndsEverySession(Login(s, email, password, token).state);
  }
}
