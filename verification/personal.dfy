/**
 * A staff member (Personal): credentials, the in-memory session token, and
 * identity by e-mail address.
 */
module Staff {
  import opened Wrappers
  import JavaText
  import JavaHash

  /**
   * A staff member. A null password or token is None; the token is kept in
   * memory only and is None while no session is open.
   */
  datatype Personal = Personal(email: string, contrasena: Option<string>, activeToken: Option<string>)

  /** The two-argument constructor: no session is open yet. */
  function NuevoPersonal(email: string, contrasena: Option<string>): (p: Personal)
    ensures p.email == email && p.contrasena == contrasena
    ensures !HasActiveSession(p)
    ensures forall t :: !IsValidToken(p, t)
  {
    Personal(email, contrasena, None)
  }

  /** checkPassword: a stored password is required, and the offered one must equal it (a null offer never does). */
  predicate CheckPassword(p: Personal, password: Option<string>) {
    p.contrasena.Some? && password == p.contrasena
  }

  /** isValidToken: an open session is required, and the offered token must be that session's. */
  predicate IsValidToken(p: Personal, token: Option<string>) {
    p.activeToken.Some? && token == p.activeToken
  }

  /** hasActiveSession: a token is held. */
  predicate HasActiveSession(p: Personal) {
    p.activeToken.Some?
  }

  /** A member without a password can never log in, and with one exactly that password is accepted. */
  lemma PasswordIsExact(p: Personal, password: Option<string>)
    ensures p.contrasena.None? ==> !CheckPassword(p, password)
    ensures p.contrasena.Some? ==> (CheckPassword(p, password) <==> password == Some(p.contrasena.value))
  {
  }

  /** At most one token is valid, and only while a session is open. */
  lemma ValidTokenIsUnique(p: Personal, t1: Option<string>, t2: Option<string>)
    ensures IsValidToken(p, t1) ==> HasActiveSession(p) && t1.Some?
    ensures IsValidToken(p, t1) && IsValidToken(p, t2) ==> t1 == t2
    ensures HasActiveSession(p) <==> IsValidToken(p, p.activeToken)
  {
  }

  /** invalidateToken: the session is closed; nothing else changes. */
  function InvalidateToken(p: Personal): (r: Personal)
    ensures !HasActiveSession(r)
    ensures forall t :: !IsValidToken(r, t)
    ensures r.(activeToken := p.activeToken) == p
  {
    p.(activeToken := None)
  }

  /** setActiveToken: exactly the given token becomes valid (a null one closes the session); nothing else changes. */
  function SetActiveToken(p: Personal, token: Option<string>): (r: Personal)
    ensures HasActiveSession(r) <==> token.Some?
    ensures forall t :: IsValidToken(r, t) <==> token.Some? && t == token
    ensures r.(activeToken := p.activeToken) == p
  {
    p.(activeToken := token)
  }

  /** Setting a token and then invalidating it leaves the member as if no token had been set. */
  lemma InvalidateUndoesSet(p: Personal, token: Option<string>)
    ensures InvalidateToken(SetActiveToken(p, token)) == InvalidateToken(p)
    ensures SetActiveToken(p, p.activeToken) == p
  {
  }

  /** equals: two members are the same member when their e-mail addresses are equal. */
  predicate Equals(a: Personal, b: Personal) {
    a.email == b.email
  }

  /** hashCode: Objects.hash over the e-mail address. */
  function HashCode(p: Personal): (h: int)
    ensures JavaText.IsInt32(h)
  {
    JavaHash.ObjectsHash([JavaHash.StringHash(p.email)])
  }

  /**
   * Identity survives the session and password fields: a member equals
   * itself after logging in or out, equal members hash alike, and equality
   * is an equivalence relation.
   */
  lemma IdentityIsTheEmail(a: Personal, b: Personal, c: Personal, token: Option<string>)
    ensures Equals(a, a)
    ensures Equals(a, b) ==> Equals(b, a) && HashCode(a) == HashCode(b)
    ensures Equals(a, b) && Equals(b, c) ==> Equals(a, c)
    ensures Equals(a, SetActiveToken(a, token)) && Equals(a, InvalidateToken(a))
    ensures HashCode(SetActiveToken(a, token)) == HashCode(a)
  {
  }
}
