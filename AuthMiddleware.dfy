/** The `isAuthenticated` middleware: choosing the token (cookie first, then a
    bearer header as in section 2.1 of RFC 6750), the outcome tree over the
    opaque verification result, and the write of `req.id` before `next()`. */
module AuthMiddleware {
  import opened Common

  const BearerPrefix: string := "Bearer "

  /** The token the middleware uses: a truthy cookie, else the second
      space-separated piece of an Authorization header that starts with
      "Bearer ", else none. The piece may be empty. */
  function SelectToken(cookie: Option<string>, authorization: Option<string>): (t: Option<string>)
    ensures Truthy(cookie) ==> t == cookie
    ensures !Truthy(cookie) && (authorization.None? || !StartsWith(authorization.value, BearerPrefix)) ==> t.None?
    ensures !Truthy(cookie) && authorization.Some? && StartsWith(authorization.value, BearerPrefix) ==>
      t.Some? && !Contains(t.value, " ") &&
      exists pieces :: pieces == Split(authorization.value, " ") && |pieces| >= 2 && t.value == pieces[1]
  {
    if Truthy(cookie) then cookie
    else if authorization.Some? && StartsWith(authorization.value, BearerPrefix) then
      var h := authorization.value;
      BearerSplit(h);
      SplitPiecesFree(h, " ", 1);
      Some(Split(h, " ")[1])
    else None
  }

  /** A header starting with "Bearer " splits into "Bearer" and at least one
      more piece. */
  lemma BearerSplit(h: string)
    requires StartsWith(h, BearerPrefix)
    ensures |Split(h, " ")| >= 2 && Split(h, " ")[0] == "Bearer"
    ensures Split(h, " ")[1..] == Split(h[7..], " ")
  {
    assert OccursAt(h, " ", 6);
    forall i | 0 <= i < 6 ensures !OccursAt(h, " ", i) {
      assert h[i] == BearerPrefix[i];
    }
    assert IndexOf(h, " ") == 6;
  }

  /** A string without spaces is a single piece when split at spaces. */
  lemma SplitWithoutSpace(t: string)
    requires forall i :: 0 <= i < |t| ==> t[i] != ' '
    ensures Split(t, " ") == [t]
  {
    assert !Contains(t, " ") by {
      forall i | 0 <= i <= |t| ensures !OccursAt(t, " ", i) {
        if i < |t| {
          assert t[i..i + 1][0] == t[i];
        }
      }
    }
  }

  /** A bearer header round trip: with no cookie, "Bearer " followed by a
      token without spaces yields exactly that token. */
  lemma BearerHeaderYieldsToken(t: string)
    requires forall i :: 0 <= i < |t| ==> t[i] != ' '
    ensures SelectToken(None, Some(BearerPrefix + t)) == Some(t)
  {
    var h := BearerPrefix + t;
    assert StartsWith(h, BearerPrefix);
    BearerSplit(h);
    assert h[7..] == t;
    SplitWithoutSpace(t);
  }

  /** The outcome of the opaque token verification: a payload with or without
      a usable id, an expired token, or any other verification failure. */
  datatype Verified = Payload(id: Option<Id>) | Expired | Invalid

  /** A refusal: status 401, whether the token cookie is cleared, and the
      `isTokenExpired` flag. */
  datatype Outcome =
    | Refused(status: int, message: string, clearsCookie: bool, isTokenExpired: bool)
    | Admitted(id: Id)

  /** The decision tree of the middleware, given the selected token and the
      verification of it. */
  function Decide(token: Option<string>, verify: string -> Verified): (o: Outcome)
    ensures !Truthy(token) ==> o == Refused(401, "Authentication required. Please log in.", true, false)
    ensures Truthy(token) && verify(token.value).Expired? ==>
      o == Refused(401, "Your session has expired. Please log in again.", true, true)
    ensures o.Refused? && o.isTokenExpired <==> Truthy(token) && verify(token.value).Expired?
    ensures o.Admitted? ==> Truthy(token) && verify(token.value) == Payload(Some(o.id))
    ensures Truthy(token) && verify(token.value).Payload? && verify(token.value).id.Some? ==> o.Admitted?
    ensures o.Refused? ==> o.status == 401 && o.clearsCookie
  {
    if !Truthy(token) then Refused(401, "Authentication required. Please log in.", true, false)
    else
      match verify(token.value)
      case Expired => Refused(401, "Your session has expired. Please log in again.", true, true)
      case Invalid => Refused(401, "Invalid token. Please log in again.", true, false)
      case Payload(None) => Refused(401, "Invalid token. Please log in again.", true, false)
      case Payload(Some(id)) => Admitted(id)
  }

  /** The part of the request the middleware writes, and a count of how many
      times it has handed the request on with `next()`. */
  class Request {
    var id: Option<Id>
    var nextCalls: nat

    constructor ()
      ensures id.None? && nextCalls == 0
    {
      id, nextCalls := None, 0;
    }
  }

  /** Run the middleware on `req`. On admission `req.id` holds the decoded id
      and `next()` has been called exactly once; on refusal the request is
      untouched and the refusal is returned. */
  method Authenticate(req: Request, cookie: Option<string>, authorization: Option<string>, verify: string -> Verified)
    returns (refusal: Option<Outcome>)
    modifies req
    ensures var o := Decide(SelectToken(cookie, authorization), verify);
      (o.Admitted? ==> refusal.None? && req.id == Some(o.id) && req.nextCalls == old(req.nextCalls) + 1) &&
      (o.Refused? ==> refusal == Some(o) && req.id == old(req.id) && req.nextCalls == old(req.nextCalls))
  {
    var token := SelectToken(cookie, authorization);
    var outcome := Decide(token, verify);
    match outcome
    case Refused(_, _, _, _) =>
      return Some(outcome);
    case Admitted(id) =>
      req.id := Some(id);
      req.nextCalls := req.nextCalls + 1;
      return None;
  }
}
